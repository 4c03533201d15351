/** contrib/mod_ifversion.c: parsing version strings in place, ordering them, and skipping a
    nested configuration section.
*/
module IfVersion {
  import opened Basics
  import opened Decimals

  const STATUS_RC: nat := 100
  const STATUS_STABLE: nat := 300
  const ULONG_LIMIT: nat := 0x1_0000_0000_0000_0000
  const UINT_LIMIT: nat := 0x1_0000_0000

  // ----- Characters -----

  predicate IsSpace(c: char) {
    c == ' ' || '\t' <= c <= '\r'
  }

  predicate IsAlpha(c: char) {
    'a' <= c <= 'z' || 'A' <= c <= 'Z'
  }

  function ToUpper(c: char): char {
    if 'a' <= c <= 'z' then 'A' + (c - 'a') else c
  }

  function Upper(s: string): (r: string)
    ensures |r| == |s|
  {
    seq(|s|, i requires 0 <= i < |s| => ToUpper(s[i]))
  }

  /** The classes in numbers, as the C library has them for ASCII. */
  lemma CharacterClasses(c: char)
    ensures IsSpace(c) <==> c as int == 32 || 9 <= c as int <= 13
    ensures IsAlpha(c) <==> 65 <= c as int <= 90 || 97 <= c as int <= 122
    ensures ToUpper(c) as int == if 97 <= c as int <= 122 then c as int - 32 else c as int
    ensures IsDigit(c) <==> 48 <= c as int <= 57
  {
  }

  // ----- strtoul -----

  /** How many leading characters satisfy a class. */
  function Spaces(s: string): (k: nat)
    ensures k <= |s|
  {
    if s != "" && IsSpace(s[0]) then 1 + Spaces(s[1..]) else 0
  }

  function Digits(s: string): (k: nat)
    ensures k <= |s|
    ensures forall i :: 0 <= i < k ==> IsDigit(s[i])
    ensures k < |s| ==> !IsDigit(s[k])
  {
    if s != "" && IsDigit(s[0]) then
      var k := Digits(s[1..]);
      assert forall i :: 0 < i < 1 + k ==> s[i] == s[1..][i - 1];
      1 + k
    else 0
  }

  /** strtoul in base 10: the value as an unsigned long, and where conversion stopped; at the
      very start if there were no digits. */
  datatype Converted = Converted(value: nat, end: nat)

  function StrToUL(s: string): (c: Converted)
    ensures c.end <= |s|
  {
    var from := Spaces(s);
    var sign := if from < |s| && (s[from] == '-' || s[from] == '+') then 1 else 0;
    var k := Digits(s[from + sign..]);
    if k == 0 then Converted(0, 0) else
      var v := Value(s[from + sign..][..k]);
      Converted(
        if v >= ULONG_LIMIT then ULONG_LIMIT - 1
        else if sign == 1 && s[from] == '-' && v > 0 then ULONG_LIMIT - v
        else v,
        from + sign + k)
  }

  /** A component: the whole text must convert; the result is cut to an unsigned int. */
  function Field(s: string): Option<nat> {
    var c := StrToUL(s);
    if c.end < |s| then None else Some(c.value % UINT_LIMIT)
  }

  // ----- What a version string means -----

  datatype Version = Version(major: nat, minor: nat, revision: nat, status: nat)

  function FirstDot(s: string): (k: nat)
    ensures k <= |s|
    ensures k < |s| ==> s[k] == '.'
    ensures forall i :: 0 <= i < k ==> s[i] != '.'
  {
    if s == "" || s[0] == '.' then 0 else
      var k := FirstDot(s[1..]);
      assert forall i :: 0 < i < 1 + k ==> s[i] == s[1..][i - 1];
      1 + k
  }

  /** The status that follows the revision digits; None is a syntax error. */
  function Suffix(s: string): Option<nat> {
    if s == "" then Some(STATUS_STABLE)
    else if |s| == 1 then
      if IsAlpha(s[0]) then Some(STATUS_STABLE + (ToUpper(s[0]) - 'A') as nat) else None
    else if Upper(s[..2]) != "RC" then None
    else if |s| == 2 then Some(STATUS_RC)
    else if AllDigits(s[2..]) then Some((STATUS_RC + StrToUL(s[2..]).value) % UINT_LIMIT)
    else None
  }

  function ParseRevision(major: nat, minor: nat, s: string): Option<Version> {
    var k := Digits(s);
    if k == 0 then None else
      match Suffix(s[k..])
      case None => None
      case Some(status) => Some(Version(major, minor, StrToUL(s[..k]).value % UINT_LIMIT, status))
  }

  function ParseMinor(major: nat, s: string): Option<Version> {
    var dot := FirstDot(s);
    match Field(s[..dot])
    case None => None
    case Some(minor) =>
      if dot == |s| then Some(Version(major, minor, 0, 0))
      else if dot + 1 == |s| then None
      else ParseRevision(major, minor, s[dot + 1..])
  }

  function Parse(s: string): Option<Version> {
    if s == "" || !IsDigit(s[0]) then None else
      var dot := FirstDot(s);
      match Field(s[..dot])
      case None => None
      case Some(major) =>
        if dot == |s| then Some(Version(major, 0, 0, 0))
        else if dot + 1 == |s| then None
        else ParseMinor(major, s[dot + 1..])
  }

  // ----- The parser, which writes terminators into its argument -----

  /** A C string in an array: the text, then one NUL. */
  ghost predicate IsCString(a: array<char>)
    reads a
  {
    a.Length > 0 && a[a.Length - 1] == '\0' && forall i :: 0 <= i < a.Length - 1 ==> a[i] != '\0'
  }

  function TextOf(a: array<char>): string
    requires a.Length > 0
    reads a
  {
    a[..a.Length - 1]
  }

  /** The C string that starts at an index: up to the next NUL. */
  function StringAt(s: seq<char>): string {
    if s == [] || s[0] == '\0' then "" else [s[0]] + StringAt(s[1..])
  }

  lemma {:induction false} StringUpTo(s: seq<char>, k: nat)
    requires k < |s| && s[k] == '\0'
    requires forall i :: 0 <= i < k ==> s[i] != '\0'
    ensures StringAt(s) == s[..k]
  {
    if k > 0 {
      StringUpTo(s[1..], k - 1);
      assert s[..k] == [s[0]] + s[1..][..k - 1];
    }
  }

  /** Terminates the string at to, converts what starts at from, and restores the character. */
  method ConvertUpTo(a: array<char>, from: nat, to: nat) returns (c: Converted)
    requires IsCString(a) && from <= to < a.Length
    modifies a
    ensures a[..] == old(a[..])
    ensures c == StrToUL(TextOf(a)[from..to])
  {
    hide StrToUL, StringAt;
    var saved := a[to];
    a[to] := '\0';
    StringUpTo(a[from..], to - from);
    assert a[from..][..to - from] == old(a[from..to]);
    c := StrToUL(StringAt(a[from..]));
    a[to] := saved;
    assert TextOf(a)[from..to] == old(a[from..to]);
  }

  /** strchr for a dot, from an index; the terminator's index if there is none. */
  method FindDot(a: array<char>, from: nat) returns (k: nat)
    requires IsCString(a) && from < a.Length
    ensures from <= k < a.Length && k == from + FirstDot(TextOf(a)[from..])
  {
    k := from;
    while a[k] != '\0' && a[k] != '.'
      invariant from <= k < a.Length
      invariant forall i :: from <= i < k ==> a[i] != '.'
      decreases a.Length - k
    {
      k := k + 1;
    }
    FirstDotIs(TextOf(a)[from..], k - from);
  }

  lemma FirstDotIs(s: string, k: nat)
    requires k <= |s| && (k < |s| ==> s[k] == '.')
    requires forall i :: 0 <= i < k ==> s[i] != '.'
    ensures FirstDot(s) == k
  {
  }

  lemma DigitsIs(s: string, k: nat)
    requires k <= |s| && (k < |s| ==> !IsDigit(s[k]))
    requires forall i :: 0 <= i < k ==> IsDigit(s[i])
    ensures Digits(s) == k
  {
  }

  /** The revision part of parse_version. */
  method ParseRevisionAt(a: array<char>, from: nat, major: nat, minor: nat) returns (v: Option<Version>)
    requires IsCString(a) && from < a.Length - 1
    modifies a
    ensures a[..] == old(a[..])
    ensures v == ParseRevision(major, minor, TextOf(a)[from..])
  {
    var k := from;
    var n := a.Length - 1;
    ghost var s := TextOf(a)[from..];
    while k < n && IsDigit(a[k])
      invariant from <= k <= n
      invariant forall i :: from <= i < k ==> IsDigit(a[i])
    {
      k := k + 1;
    }
    DigitsIs(s, k - from);
    if k == from {
      return None;
    }
    var c := ConvertUpTo(a, from, k);
    assert TextOf(a)[from..k] == s[..k - from];
    assert TextOf(a)[k..] == s[k - from..];
    var status := SuffixAt(a, k);
    match status {
      case None => v := None;
      case Some(st) => v := Some(Version(major, minor, c.value % UINT_LIMIT, st));
    }
  }

  /** What follows the revision digits. */
  method SuffixAt(a: array<char>, k: nat) returns (status: Option<nat>)
    requires IsCString(a) && k < a.Length
    modifies {}
    ensures status == Suffix(TextOf(a)[k..])
  {
    var n := a.Length - 1;
    ghost var s := TextOf(a)[k..];
    if k == n {
      return Some(STATUS_STABLE);
    }
    if n - k == 1 {
      assert s[0] == a[k];
      if !IsAlpha(a[k]) {
        return None;
      }
      return Some(STATUS_STABLE + (ToUpper(a[k]) - 'A') as nat);
    }
    assert s[..2] == a[k..k + 2];
    if Upper(a[k..k + 2]) != "RC" {
      return None;
    }
    if n - k == 2 {
      return Some(STATUS_RC);
    }
    assert s[2..] == a[k + 2..n];
    for i := k + 2 to n
      invariant forall j :: k + 2 <= j < i ==> IsDigit(a[j])
    {
      if !IsDigit(a[i]) {
        assert !IsDigit(s[2..][i - k - 2]);
        return None;
      }
    }
    return Some((STATUS_RC + StrToUL(a[k + 2..n]).value) % UINT_LIMIT);
  }

  /** parse_version: the meaning of the string, and the string as it was. */
  method ParseVersion(a: array<char>) returns (v: Option<Version>)
    requires IsCString(a)
    modifies a
    ensures a[..] == old(a[..])
    ensures v == Parse(TextOf(a))
  {
    hide StrToUL, ParseMinor;
    ghost var s := TextOf(a);
    var n := a.Length - 1;
    if !IsDigit(a[0]) {
      assert s == "" || s[0] == a[0];
      return None;
    }
    assert s[0] == a[0];
    var dot := FindDot(a, 0);
    assert s[0..] == s;
    var c := ConvertUpTo(a, 0, dot);
    assert s[0..dot] == s[..dot];
    if c.end < dot {
      return None;
    }
    var major := c.value % UINT_LIMIT;
    if dot == n {
      return Some(Version(major, 0, 0, 0));
    }
    if dot + 1 == n {
      return None;
    }
    v := ParseMinorAt(a, dot + 1, major);
  }

  /** The minor part of parse_version. */
  method ParseMinorAt(a: array<char>, from: nat, major: nat) returns (v: Option<Version>)
    requires IsCString(a) && from < a.Length - 1
    modifies a
    ensures a[..] == old(a[..])
    ensures v == ParseMinor(major, TextOf(a)[from..])
  {
    hide StrToUL, ParseRevision, FirstDot;
    ghost var s := TextOf(a)[from..];
    var n := a.Length - 1;
    var dot := FindDot(a, from);
    var c := ConvertUpTo(a, from, dot);
    assert TextOf(a)[from..dot] == s[..dot - from];
    if c.end < dot - from {
      return None;
    }
    var minor := c.value % UINT_LIMIT;
    if dot == n {
      return Some(Version(major, minor, 0, 0));
    }
    if dot + 1 == n {
      return None;
    }
    assert TextOf(a)[dot + 1..] == s[dot + 1 - from..];
    v := ParseRevisionAt(a, dot + 1, major, minor);
  }

  // ----- Round trip -----

  /** What follows the revision: nothing, rc and a number, a bare rc (which the comments call an
      error and the code accepts), or one letter. */
  datatype Release = Stable | Candidate(n: nat) | BareCandidate | Maintenance(letter: char)

  function SuffixText(r: Release): string {
    match r
    case Stable => ""
    case Candidate(n) => "rc" + Decimal(n)
    case BareCandidate => "rc"
    case Maintenance(c) => [c]
  }

  /** major.minor.revision and the suffix. */
  function VersionText(major: nat, minor: nat, revision: nat, r: Release): string {
    Decimal(major) + "." + (Decimal(minor) + "." + (Decimal(revision) + SuffixText(r)))
  }

  /** A number as it comes out of strtoul, which stops at the largest unsigned long, and an
      unsigned int. */
  function Cut(n: nat): (c: nat)
    ensures n < UINT_LIMIT ==> c == n
  {
    (if n >= ULONG_LIMIT then ULONG_LIMIT - 1 else n) % UINT_LIMIT
  }

  function StatusOf(r: Release): nat
    requires r.Maintenance? ==> IsAlpha(r.letter)
  {
    match r
    case Stable => STATUS_STABLE
    case Candidate(n) => (STATUS_RC + Cut(n)) % UINT_LIMIT
    case BareCandidate => STATUS_RC
    case Maintenance(c) => STATUS_STABLE + (ToUpper(c) - 'A') as nat
  }

  lemma ConvertDigits(s: string)
    requires s != "" && AllDigits(s)
    ensures StrToUL(s) == Converted(if Value(s) >= ULONG_LIMIT then ULONG_LIMIT - 1 else Value(s), |s|)
  {
    assert !IsSpace(s[0]) && s[0] != '-' && s[0] != '+';
    assert s[0..] == s;
    DigitsIs(s, |s|);
    assert s[..|s|] == s;
  }

  lemma FieldOfDecimal(n: nat)
    ensures Field(Decimal(n)) == Some(Cut(n))
    ensures StrToUL(Decimal(n)).value % UINT_LIMIT == Cut(n)
  {
    hide Decimal, StrToUL, Value;
    ValueOfDecimal(n);
    ConvertDigits(Decimal(n));
  }

  lemma SuffixRoundTrip(r: Release)
    requires r.Maintenance? ==> IsAlpha(r.letter)
    ensures Suffix(SuffixText(r)) == Some(StatusOf(r))
    ensures StatusOf(r) == match r
      case Stable => 300
      case BareCandidate => 100
      case Candidate(n) => (100 + (if n < 0x1_0000_0000_0000_0000 then n else 0xffff_ffff_ffff_ffff)) % 0x1_0000_0000
      case Maintenance(c) => 300 + (if 'a' <= c <= 'z' then c as int - 97 else c as int - 65)
  {
    hide StrToUL, Decimal;
    match r
    case Stable =>
    case Maintenance(c) =>
    case BareCandidate =>
      assert "rc"[..2] == "rc";
      UpperRc();
    case Candidate(n) =>
      var s := SuffixText(r);
      assert s[..2] == "rc" && s[2..] == Decimal(n);
      UpperRc();
      FieldOfDecimal(n);
      SumWraps(StrToUL(Decimal(n)).value);
      SumWraps(if n >= ULONG_LIMIT then ULONG_LIMIT - 1 else n);
  }

  lemma SumWraps(v: nat)
    ensures (STATUS_RC + v) % UINT_LIMIT == (STATUS_RC + v % UINT_LIMIT) % UINT_LIMIT
  {
  }

  lemma UpperRc()
    ensures Upper("rc") == "RC"
  {
  }

  /** The text of any version parses to that version, its numbers cut to their width. */
  lemma ParseRoundTrip(major: nat, minor: nat, revision: nat, r: Release)
    requires r.Maintenance? ==> IsAlpha(r.letter)
    ensures Parse(VersionText(major, minor, revision, r))
         == Some(Version(Cut(major), Cut(minor), Cut(revision), StatusOf(r)))
  {
    hide StrToUL, FirstDot, Decimal, ParseMinor, Field;
    var rest := Decimal(minor) + "." + (Decimal(revision) + SuffixText(r));
    var s := Decimal(major) + "." + rest;
    FieldOfDecimal(major);
    MinorRoundTrip(Cut(major), minor, revision, r);
    SplitAtDot(Decimal(major), rest);
    assert s[0] == Decimal(major)[0];
  }

  lemma MinorRoundTrip(major: nat, minor: nat, revision: nat, r: Release)
    requires r.Maintenance? ==> IsAlpha(r.letter)
    ensures ParseMinor(major, Decimal(minor) + "." + (Decimal(revision) + SuffixText(r)))
         == Some(Version(major, Cut(minor), Cut(revision), StatusOf(r)))
  {
    hide StrToUL, FirstDot, Decimal, ParseRevision, Field;
    FieldOfDecimal(minor);
    RevisionRoundTrip(major, Cut(minor), revision, r);
    SplitAtDot(Decimal(minor), Decimal(revision) + SuffixText(r));
  }

  /** Versions given without a revision, or without a minor number. */
  lemma ShortFormsRoundTrip(major: nat, minor: nat)
    ensures Parse(Decimal(major)) == Some(Version(Cut(major), 0, 0, 0))
    ensures Parse(Decimal(major) + "." + Decimal(minor)) == Some(Version(Cut(major), Cut(minor), 0, 0))
  {
    hide StrToUL, Decimal, Field;
    FieldOfDecimal(major);
    FieldOfDecimal(minor);
    FirstDotIs(Decimal(major), |Decimal(major)|);
    FirstDotIs(Decimal(minor), |Decimal(minor)|);
    SplitAtDot(Decimal(major), Decimal(minor));
    assert Decimal(major)[..|Decimal(major)|] == Decimal(major);
    assert Decimal(minor)[..|Decimal(minor)|] == Decimal(minor);
    assert (Decimal(major) + "." + Decimal(minor))[0] == Decimal(major)[0];
  }

  lemma SplitAtDot(a: string, b: string)
    requires AllDigits(a)
    ensures FirstDot(a + "." + b) == |a|
    ensures (a + "." + b)[..|a|] == a && (a + "." + b)[|a| + 1..] == b
  {
    FirstDotIs(a + "." + b, |a|);
  }

  lemma RevisionRoundTrip(major: nat, minor: nat, revision: nat, r: Release)
    requires r.Maintenance? ==> IsAlpha(r.letter)
    ensures ParseRevision(major, minor, Decimal(revision) + SuffixText(r))
         == Some(Version(major, minor, Cut(revision), StatusOf(r)))
  {
    hide StrToUL, Decimal, Suffix, Digits;
    var d := Decimal(revision);
    var s := d + SuffixText(r);
    assert SuffixText(r) != "" ==> !IsDigit(SuffixText(r)[0]);
    DigitsIs(s, |d|);
    assert s[..|d|] == d && s[|d|..] == SuffixText(r);
    FieldOfDecimal(revision);
    SuffixRoundTrip(r);
  }

  // ----- Which strings are versions -----

  predicate IsNumber(s: string) {
    s != "" && AllDigits(s)
  }

  predicate AllSpaces(s: string) {
    forall i :: 0 <= i < |s| ==> IsSpace(s[i])
  }

  predicate IsSign(s: string) {
    s == "" || s == "+" || s == "-"
  }

  /** What strtoul takes whole: nothing at all, or blanks, a sign and digits. */
  ghost predicate IsComponent(s: string) {
    s == "" || exists w, g, d :: AllSpaces(w) && IsSign(g) && IsNumber(d) && s == w + g + d
  }

  predicate IsSuffix(s: string) {
    || s == ""
    || (|s| == 1 && IsAlpha(s[0]))
    || (|s| >= 2 && Upper(s[..2]) == "RC" && AllDigits(s[2..]))
  }

  ghost predicate IsRevision(s: string) {
    exists c, x :: IsNumber(c) && IsSuffix(x) && s == c + x
  }

  ghost predicate IsMinor(s: string) {
    IsComponent(s) || exists b, r :: IsComponent(b) && IsRevision(r) && s == b + "." + r
  }

  /** The language of parse_version: a number; after a dot something for the minor number, which
      may be empty only if a revision follows; after another dot digits and a suffix. */
  ghost predicate IsVersion(s: string) {
    IsNumber(s) || exists a, m :: IsNumber(a) && IsMinor(m) && m != "" && s == a + "." + m
  }

  lemma {:induction false} SpacesIs(s: string, k: nat)
    requires k <= |s| && (forall i :: 0 <= i < k ==> IsSpace(s[i])) && (k < |s| ==> !IsSpace(s[k]))
    ensures Spaces(s) == k
  {
    if k > 0 {
      SpacesIs(s[1..], k - 1);
    }
  }

  lemma {:induction false} SpacesAre(s: string)
    ensures AllSpaces(s[..Spaces(s)])
  {
    if Spaces(s) > 0 {
      SpacesAre(s[1..]);
      assert s[..Spaces(s)] == [s[0]] + s[1..][..Spaces(s[1..])];
    }
  }

  lemma FieldAccepts(s: string)
    ensures Field(s).Some? <==> IsComponent(s)
  {
    if Field(s).Some? && s != "" {
      var from := Spaces(s);
      var sign := if from < |s| && (s[from] == '-' || s[from] == '+') then 1 else 0;
      var w, g, d := s[..from], s[from..from + sign], s[from + sign..];
      SpacesAre(s);
      assert s == w + g + d;
      assert AllSpaces(w) && IsSign(g) && IsNumber(d);
    }
    if IsComponent(s) && s != "" {
      var w, g, d :| AllSpaces(w) && IsSign(g) && IsNumber(d) && s == w + g + d;
      ComponentConverts(w, g, d);
    }
  }

  lemma ComponentConverts(w: string, g: string, d: string)
    requires AllSpaces(w) && IsSign(g) && IsNumber(d)
    ensures StrToUL(w + g + d).end == |w + g + d|
  {
    hide Value;
    var s := w + g + d;
    assert s[|w|] == (if g == "" then d[0] else g[0]);
    SpacesIs(s, |w|);
    assert s[|w| + |g|..] == d;
    DigitsIs(d, |d|);
  }

  /** What a component with a sign is worth: a plus changes nothing, and a minus counts down
      from 2^64. */
  lemma SignedComponents(n: nat)
    requires 0 < n < 0x1_0000_0000_0000_0000
    ensures Field("+" + Decimal(n)) == Some(n % 0x1_0000_0000)
    ensures Field("-" + Decimal(n)) == Some((0x1_0000_0000_0000_0000 - n) % 0x1_0000_0000)
  {
    SignedComponent("+", n);
    SignedComponent("-", n);
  }

  lemma SignedComponent(g: string, n: nat)
    requires (g == "+" || g == "-") && 0 < n < ULONG_LIMIT
    ensures StrToUL(g + Decimal(n)) == Converted(if g == "-" then ULONG_LIMIT - n else n, 1 + |Decimal(n)|)
  {
    hide Decimal, Value;
    var d := Decimal(n);
    var s := g + d;
    assert s[0] == g[0];
    SpacesIs(s, 0);
    assert s[1..] == d;
    DigitsIs(d, |d|);
    assert d[..|d|] == d;
    ValueOfDecimal(n);
  }

  lemma NoDotInComponent(s: string)
    requires IsComponent(s)
    ensures forall i :: 0 <= i < |s| ==> s[i] != '.'
  {
    if s != "" {
      var w, g, d :| AllSpaces(w) && IsSign(g) && IsNumber(d) && s == w + g + d;
    }
  }

  lemma SuffixAccepts(s: string)
    ensures Suffix(s).Some? <==> IsSuffix(s)
  {
    hide StrToUL;
  }

  lemma RevisionAccepts(major: nat, minor: nat, s: string)
    ensures ParseRevision(major, minor, s).Some? <==> IsRevision(s)
  {
    hide StrToUL, Suffix;
    var k := Digits(s);
    SuffixAccepts(s[k..]);
    if ParseRevision(major, minor, s).Some? {
      assert s == s[..k] + s[k..] && IsNumber(s[..k]);
    }
    if IsRevision(s) {
      var c, x :| IsNumber(c) && IsSuffix(x) && s == c + x;
      assert x != "" ==> !IsDigit(x[0]) by {
        if |x| >= 2 {
          assert Upper(x[..2])[0] == ToUpper(x[0]);
        }
      }
      DigitsIs(s, |c|);
      assert s[|c|..] == x;
    }
  }

  lemma SplitAtFirstDot(s: string, a: string, b: string)
    requires s == a + "." + b && forall i :: 0 <= i < |a| ==> a[i] != '.'
    ensures FirstDot(s) == |a| && s[..|a|] == a && s[|a| + 1..] == b
  {
    FirstDotIs(s, |a|);
  }

  lemma MinorAccepts(major: nat, s: string)
    requires s != ""
    ensures ParseMinor(major, s).Some? <==> IsMinor(s)
  {
    hide Field, ParseRevision, IsComponent, IsRevision;
    var dot := FirstDot(s);
    FieldAccepts(s[..dot]);
    if dot == |s| {
      assert s[..dot] == s;
    } else {
      assert s == s[..dot] + "." + s[dot + 1..];
    }
    if ParseMinor(major, s).Some? && dot < |s| {
      RevisionAccepts(major, Field(s[..dot]).value, s[dot + 1..]);
    }
    if IsMinor(s) {
      if IsComponent(s) {
        NoDotInComponent(s);
        assert dot == |s|;
      } else {
        var b, r :| IsComponent(b) && IsRevision(r) && s == b + "." + r;
        NoDotInComponent(b);
        SplitAtFirstDot(s, b, r);
        RevisionIsNotEmpty(r);
        RevisionAccepts(major, Field(b).value, r);
      }
    }
  }

  lemma RevisionIsNotEmpty(r: string)
    requires IsRevision(r)
    ensures r != ""
  {
  }

  lemma NumberIsComponent(s: string)
    ensures IsNumber(s) ==> IsComponent(s)
    ensures IsComponent(s) && s != "" && IsDigit(s[0]) ==> IsNumber(s)
  {
    if IsNumber(s) {
      assert AllSpaces("") && IsSign("") && s == "" + "" + s;
    }
    if IsComponent(s) && s != "" && IsDigit(s[0]) {
      var w, g, d :| AllSpaces(w) && IsSign(g) && IsNumber(d) && s == w + g + d;
      assert s == d;
    }
  }

  /** A string is accepted exactly when it is in the language. */
  lemma {:induction false} ParseAccepts(s: string)
    ensures Parse(s).Some? <==> IsVersion(s)
  {
    hide Field, ParseMinor, IsComponent, IsMinor;
    var dot := FirstDot(s);
    FieldAccepts(s[..dot]);
    NumberIsComponent(s[..dot]);
    if dot == |s| {
      assert s[..dot] == s;
    } else {
      assert s == s[..dot] + "." + s[dot + 1..];
    }
    if Parse(s).Some? {
      assert dot > 0;
      assert s[..dot][0] == s[0];
      if dot < |s| {
        MinorAccepts(Field(s[..dot]).value, s[dot + 1..]);
      }
    }
    if IsVersion(s) {
      if IsNumber(s) {
        NumberIsComponent(s);
      } else {
        var a, m :| IsNumber(a) && IsMinor(m) && m != "" && s == a + "." + m;
        SplitAtFirstDot(s, a, m);
        MinorAccepts(Field(a).value, m);
      }
    }
  }

  // ----- Order -----

  /** compare_version: how the server's version compares with the configured one. */
  function Compare(server: Version, v: Version): (c: int)
    ensures -1 <= c <= 1
  {
    if server.major > v.major then 1
    else if server.major < v.major then -1
    else if server.minor > v.minor then 1
    else if server.minor < v.minor then -1
    else if server.revision > v.revision then 1
    else if server.revision < v.revision then -1
    else if server.status > v.status then 1
    else if server.status < v.status then -1
    else 0
  }

  function Components(v: Version): (c: seq<nat>)
    ensures |c| == 4
  {
    [v.major, v.minor, v.revision, v.status]
  }

  /** Lexicographic order: smaller at the first component that differs. */
  ghost predicate LexLess(a: seq<nat>, b: seq<nat>)
    requires |a| == |b|
  {
    exists k :: 0 <= k < |a| && a[k] < b[k] && a[..k] == b[..k]
  }

  /** compare_version is the lexicographic order on the four components. */
  lemma CompareIsLexicographic(a: Version, b: Version)
    ensures Compare(a, b) == -1 <==> LexLess(Components(a), Components(b))
    ensures Compare(a, b) == 1 <==> LexLess(Components(b), Components(a))
    ensures Compare(a, b) == 0 <==> a == b
  {
    LessIsLex(a, b);
    LessIsLex(b, a);
  }

  lemma LessIsLex(a: Version, b: Version)
    ensures Compare(a, b) == -1 <==> LexLess(Components(a), Components(b))
  {
    var x, y := Components(a), Components(b);
    if LexLess(x, y) {
      var k :| 0 <= k < 4 && x[k] < y[k] && x[..k] == y[..k];
      assert forall i :: 0 <= i < k ==> x[i] == x[..k][i] == y[..k][i] == y[i];
      assert k > 0 ==> a.major == b.major by { assert k > 0 ==> x[0] == y[0]; }
      assert k > 1 ==> a.minor == b.minor by { assert k > 1 ==> x[1] == y[1]; }
      assert k > 2 ==> a.revision == b.revision by { assert k > 2 ==> x[2] == y[2]; }
    }
    if Compare(a, b) == -1 {
      var k := if a.major < b.major then 0 else if a.minor < b.minor then 1
               else if a.revision < b.revision then 2 else 3;
      assert x[k] < y[k] && x[..k] == y[..k];
    }
  }

  /** A total preorder: any two compare, and it is transitive. */
  lemma CompareIsTotalPreorder(a: Version, b: Version, c: Version)
    ensures Compare(a, b) == -Compare(b, a)
    ensures Compare(a, b) <= 0 && Compare(b, c) <= 0 ==> Compare(a, c) <= 0
  {
  }

  function Parsed(major: nat, minor: nat, revision: nat, r: Release): (v: Version)
    requires r.Maintenance? ==> IsAlpha(r.letter)
    ensures Parse(VersionText(major, minor, revision, r)) == Some(v)
  {
    ParseRoundTrip(major, minor, revision, r);
    Version(Cut(major), Cut(minor), Cut(revision), StatusOf(r))
  }

  /** The intended order RC < stable, for the parsed texts of one revision: it holds exactly for
      the candidate numbers whose 32-bit sum with 100 stays below 300. That is every number
      below 200, and beyond them those that wrap around to it or are too large for strtoul. */
  lemma {:induction false} CandidateOrder(major: nat, minor: nat, revision: nat, n: nat)
    ensures Compare(Parsed(major, minor, revision, Candidate(n)), Parsed(major, minor, revision, Stable)) == -1
       <==> n >= ULONG_LIMIT || n % UINT_LIMIT < 200 || n % UINT_LIMIT >= UINT_LIMIT - 100
    ensures Compare(Parsed(major, minor, revision, BareCandidate), Parsed(major, minor, revision, Stable)) == -1
  {
    hide Parse, VersionText, Decimal;
    WrappedStatus(n);
  }

  lemma WrappedStatus(n: nat)
    ensures (STATUS_RC + Cut(n)) % UINT_LIMIT < STATUS_STABLE
       <==> n >= ULONG_LIMIT || n % UINT_LIMIT < 200 || n % UINT_LIMIT >= UINT_LIMIT - 100
  {
    var c := Cut(n);
    if n >= ULONG_LIMIT {
      assert (ULONG_LIMIT - 1) % UINT_LIMIT == UINT_LIMIT - 1;
    }
    assert c < UINT_LIMIT;
    if c < UINT_LIMIT - 100 {
      assert (STATUS_RC + c) % UINT_LIMIT == STATUS_RC + c;
    } else {
      assert (STATUS_RC + c) % UINT_LIMIT == STATUS_RC + c - UINT_LIMIT;
    }
  }

  /** The candidate with the number 200 ranks as the stable release. */
  lemma {:induction false} CandidateIsNotBelowStable()
    ensures Compare(Parsed(1, 3, 6, Candidate(200)), Parsed(1, 3, 6, Stable)) == 0
  {
    hide Parse, VersionText, Decimal;
  }

  /** The intended order stable < maintenance holds exactly for letters other than a. */
  lemma {:induction false} MaintenanceOrder(major: nat, minor: nat, revision: nat, letter: char)
    requires IsAlpha(letter)
    ensures Compare(Parsed(major, minor, revision, Stable), Parsed(major, minor, revision, Maintenance(letter))) == -1
       <==> letter != 'a' && letter != 'A'
  {
    hide Parse, VersionText, Decimal;
    assert ToUpper(letter) != 'A' ==> (ToUpper(letter) - 'A') as nat > 0;
  }

  /** A version written without its revision has no status: it ranks below revision 0 of every
      kind, stable included, but for a candidate whose status wraps around to nothing. */
  lemma {:induction false} ShortFormOrder(major: nat, minor: nat, r: Release)
    requires r.Maintenance? ==> IsAlpha(r.letter)
    ensures var short := Parse(Decimal(major) + "." + Decimal(minor));
            && short.Some?
            && (Compare(short.value, Parsed(major, minor, 0, r)) == -1 <==> StatusOf(r) != 0)
  {
    hide Parse, VersionText, Decimal;
    ShortFormsRoundTrip(major, minor);
  }

  // ----- Skipping a section -----

  predicate IsOpen(line: string) {
    |line| >= 10 && Upper(line[..10]) == "<IFVERSION"
  }

  predicate IsClose(line: string) {
    Upper(line) == "</IFVERSION>"
  }

  /** Two characters that differ at most in case. */
  predicate SameLetter(c: char, lower: char, upper: char) {
    c == lower || c == upper
  }

  /** Exactly which lines open a section: those that begin with the directive, in any case. */
  lemma OpensExactly(line: string)
    ensures IsOpen(line) <==>
      |line| >= 10 && forall i :: 0 <= i < 10 ==> SameLetter(line[i], "<ifversion"[i], "<IFVERSION"[i])
  {
    if |line| >= 10 {
      var s := line[..10];
      assert forall i :: 0 <= i < 10 ==> Upper(s)[i] == ToUpper(line[i]);
      if forall i :: 0 <= i < 10 ==> SameLetter(line[i], "<ifversion"[i], "<IFVERSION"[i]) {
        assert forall i :: 0 <= i < 10 ==> Upper(s)[i] == "<IFVERSION"[i];
      }
      if IsOpen(line) {
        forall i | 0 <= i < 10 ensures SameLetter(line[i], "<ifversion"[i], "<IFVERSION"[i]) {
          assert ToUpper(line[i]) == "<IFVERSION"[i];
        }
      }
    }
  }

  /** Exactly which lines close one: the closing directive alone, in any case. */
  lemma ClosesExactly(line: string)
    ensures IsClose(line) <==>
      |line| == 12 && forall i :: 0 <= i < 12 ==> SameLetter(line[i], "</ifversion>"[i], "</IFVERSION>"[i])
  {
    if |line| == 12 {
      assert forall i :: 0 <= i < 12 ==> Upper(line)[i] == ToUpper(line[i]);
      if forall i :: 0 <= i < 12 ==> SameLetter(line[i], "</ifversion>"[i], "</IFVERSION>"[i]) {
        assert forall i :: 0 <= i < 12 ==> Upper(line)[i] == "</IFVERSION>"[i];
      }
      if IsClose(line) {
        forall i | 0 <= i < 12 ensures SameLetter(line[i], "</ifversion>"[i], "</IFVERSION>"[i]) {
          assert ToUpper(line[i]) == "</IFVERSION>"[i];
        }
      }
    }
  }

  /** How many lines are read before depth sections are closed. */
  function Skipped(lines: seq<string>, depth: nat): (k: nat)
    ensures k <= |lines|
  {
    if depth == 0 || lines == [] then 0
    else 1 + Skipped(lines[1..], After(lines[0], depth))
  }

  function After(line: string, depth: nat): nat
    requires depth > 0
  {
    depth + (if IsOpen(line) then 1 else 0) - (if IsClose(line) then 1 else 0)
  }

  /** The depth left after those lines; zero if they closed everything. */
  function Remaining(lines: seq<string>, depth: nat): nat {
    if depth == 0 || lines == [] then depth else Remaining(lines[1..], After(lines[0], depth))
  }

  /** The skip loop of start_ifversion. */
  method SkipSection(lines: seq<string>) returns (read: nat, closed: bool)
    ensures read == Skipped(lines, 1)
    ensures closed <==> Remaining(lines, 1) == 0
  {
    var depth := 1;
    read := 0;
    while depth > 0 && read < |lines|
      invariant 0 <= read <= |lines| && depth >= 0
      invariant read + Skipped(lines[read..], depth) == Skipped(lines, 1)
      invariant Remaining(lines[read..], depth) == Remaining(lines, 1)
      decreases |lines| - read
    {
      var line := lines[read];
      assert lines[read..][1..] == lines[read + 1..];
      read := read + 1;
      ghost var before: nat := depth;
      if IsOpen(line) {
        depth := depth + 1;
      }
      if IsClose(line) {
        depth := depth - 1;
      }
      assert depth == After(line, before);
    }
    closed := depth == 0;
  }

  /** How many of some lines open, or close, a section. */
  function Opens(lines: seq<string>): nat {
    if lines == [] then 0 else Opens(lines[..|lines| - 1]) + if IsOpen(lines[|lines| - 1]) then 1 else 0
  }

  function Closes(lines: seq<string>): nat {
    if lines == [] then 0 else Closes(lines[..|lines| - 1]) + if IsClose(lines[|lines| - 1]) then 1 else 0
  }

  /** What skipping does to any lines at all: it reads on to the first place where the closing
      lines have caught up with the opening ones and the section itself, and reports the section
      closed exactly if there is one. */
  lemma {:induction false} SkipsToBalance(lines: seq<string>, depth: nat)
    ensures var k := Skipped(lines, depth);
            && Remaining(lines, depth) == depth + Opens(lines[..k]) - Closes(lines[..k])
            && (forall j :: 0 <= j < k ==> depth + Opens(lines[..j]) - Closes(lines[..j]) > 0)
            && (k < |lines| ==> Remaining(lines, depth) == 0)
    decreases |lines|
  {
    if depth > 0 && lines != [] {
      var rest := lines[1..];
      SkipsToBalance(rest, After(lines[0], depth));
      forall j | 0 < j <= |lines|
        ensures Opens(lines[..j]) == (if IsOpen(lines[0]) then 1 else 0) + Opens(rest[..j - 1])
        ensures Closes(lines[..j]) == (if IsClose(lines[0]) then 1 else 0) + Closes(rest[..j - 1])
      {
        assert lines[..j] == [lines[0]] + rest[..j - 1];
        CountsFromFirst(lines[0], rest[..j - 1]);
      }
      forall j | 0 <= j < Skipped(lines, depth)
        ensures depth + Opens(lines[..j]) - Closes(lines[..j]) > 0
      {
        if j > 0 {
          assert After(lines[0], depth) + Opens(rest[..j - 1]) - Closes(rest[..j - 1]) > 0;
        }
      }
    }
  }

  lemma {:induction false} CountsFromFirst(line: string, rest: seq<string>)
    ensures Opens([line] + rest) == (if IsOpen(line) then 1 else 0) + Opens(rest)
    ensures Closes([line] + rest) == (if IsClose(line) then 1 else 0) + Closes(rest)
    decreases |rest|
  {
    var all := [line] + rest;
    if rest == [] {
      assert all[..0] == [] && all == [line];
    } else {
      assert all[..|all| - 1] == [line] + rest[..|rest| - 1];
      CountsFromFirst(line, rest[..|rest| - 1]);
    }
  }

  /** Section bodies: plain lines and properly closed nested sections. */
  datatype Body =
    | End
    | Plain(line: string, rest: Body)
    | Nested(opening: string, inner: Body, closing: string, rest: Body)

  predicate BodyOk(b: Body) {
    match b
    case End => true
    case Plain(line, rest) => !IsOpen(line) && !IsClose(line) && BodyOk(rest)
    case Nested(opening, inner, closing, rest) =>
      IsOpen(opening) && !IsClose(opening) && BodyOk(inner)
      && IsClose(closing) && !IsOpen(closing) && BodyOk(rest)
  }

  function Lines(b: Body): seq<string> {
    match b
    case End => []
    case Plain(line, rest) => [line] + Lines(rest)
    case Nested(opening, inner, closing, rest) => [opening] + Lines(inner) + [closing] + Lines(rest)
  }

  /** A well-nested body is passed over whole, at the depth it was entered. */
  lemma {:induction false} BodyIsPassedOver(b: Body, tail: seq<string>, depth: nat)
    requires BodyOk(b) && depth > 0
    ensures Skipped(Lines(b) + tail, depth) == |Lines(b)| + Skipped(tail, depth)
    ensures Remaining(Lines(b) + tail, depth) == Remaining(tail, depth)
    decreases b
  {
    hide Skipped, Remaining, IsOpen, IsClose;
    match b
    case End =>
      assert Lines(b) + tail == tail;
    case Plain(line, rest) =>
      assert Lines(b) + tail == [line] + (Lines(rest) + tail);
      SkipLine(line, Lines(rest) + tail, depth);
      BodyIsPassedOver(rest, tail, depth);
    case Nested(opening, inner, closing, rest) =>
      var after := [closing] + (Lines(rest) + tail);
      assert Lines(b) + tail == [opening] + (Lines(inner) + after);
      SkipLine(opening, Lines(inner) + after, depth);
      BodyIsPassedOver(inner, after, depth + 1);
      SkipLine(closing, Lines(rest) + tail, depth + 1);
      BodyIsPassedOver(rest, tail, depth);
  }

  lemma SkipLine(line: string, rest: seq<string>, depth: nat)
    requires depth > 0
    ensures Skipped([line] + rest, depth) == 1 + Skipped(rest, After(line, depth))
    ensures Remaining([line] + rest, depth) == Remaining(rest, After(line, depth))
  {
    assert ([line] + rest)[1..] == rest;
  }

  /** Skipping reads the body and its own closing line, and nothing after it. */
  lemma {:induction false} SkipStopsAtMatchingClose(b: Body, closing: string, tail: seq<string>)
    requires BodyOk(b) && IsClose(closing) && !IsOpen(closing)
    ensures Skipped(Lines(b) + [closing] + tail, 1) == |Lines(b)| + 1
    ensures Remaining(Lines(b) + [closing] + tail, 1) == 0
  {
    hide Lines, IsOpen, IsClose;
    BodyIsPassedOver(b, [closing] + tail, 1);
    assert Lines(b) + [closing] + tail == Lines(b) + ([closing] + tail);
    SkipLine(closing, tail, 1);
  }

  /** A body whose own close is missing is read to the end and reported unclosed. */
  lemma {:induction false} UnclosedSectionIsReported(b: Body)
    requires BodyOk(b)
    ensures Skipped(Lines(b), 1) == |Lines(b)| && Remaining(Lines(b), 1) > 0
  {
    BodyIsPassedOver(b, [], 1);
    assert Lines(b) + [] == Lines(b);
  }
}
