/** get_key_for_cache of contrib/mod_digest.c: "<path>@<mtime>,<start>+<len>", the numbers
    printed as unsigned 64-bit decimals.
*/
module CacheKey {
  import opened Decimals

  const TWO_TO_THE_63: int := 0x8000_0000_0000_0000
  const TWO_TO_THE_64: int := 0x1_0000_0000_0000_0000

  /** time_t and off_t. */
  type Int64 = x: int | -TWO_TO_THE_63 <= x < TWO_TO_THE_63

  /** size_t. */
  type Size = x: int | 0 <= x < TWO_TO_THE_64

  /** The conversion of a signed value to unsigned long long. */
  function Unsigned(x: Int64): (u: Size) {
    if x < 0 then x + TWO_TO_THE_64 else x
  }

  function KeyFor(path: string, mtime: Int64, start: Int64, len: Size): string {
    path + "@" + Decimal(Unsigned(mtime)) + "," + Decimal(Unsigned(start)) + "+" + Decimal(len)
  }

  /** The text of a key: the path and three numbers between their separators; negative times and
      offsets appear as the unsigned numbers with the same 64 bits. */
  lemma KeyText(path: string, mtime: Int64, start: Int64, len: Size)
    ensures exists m: nat, s: nat ::
      && KeyFor(path, mtime, start, len) == path + "@" + Decimal(m) + "," + Decimal(s) + "+" + Decimal(len)
      && m == (if mtime >= 0 then mtime else mtime + 0x1_0000_0000_0000_0000)
      && s == (if start >= 0 then start else start + 0x1_0000_0000_0000_0000)
  {
    var m: nat := Unsigned(mtime);
    var s: nat := Unsigned(start);
    assert KeyFor(path, mtime, start, len) == path + "@" + Decimal(m) + "," + Decimal(s) + "+" + Decimal(len);
  }

  /** A string splits in one way only at the last occurrence of a separator. */
  lemma SplitAtLast(a: string, x: string, b: string, y: string, sep: char)
    requires a + [sep] + x == b + [sep] + y
    requires sep !in x && sep !in y
    ensures a == b && x == y
  {
    var s := a + [sep] + x;
    assert s[|a|] == sep && s[|b|] == sep;
    assert forall i :: |a| < i < |s| ==> s[i] == x[i - |a| - 1];
    assert forall i :: |b| < i < |s| ==> s[i] == y[i - |b| - 1];
    assert a == s[..|a|] && b == s[..|b|];
    assert x == s[|a| + 1..] && y == s[|b| + 1..];
  }

  /** Different (path, mtime, start, len) never share a cache key, whatever characters the
      paths contain. */
  lemma {:induction false} KeysAreInjective(
    path: string, mtime: Int64, start: Int64, len: Size,
    path': string, mtime': Int64, start': Int64, len': Size)
    requires KeyFor(path, mtime, start, len) == KeyFor(path', mtime', start', len')
    ensures path == path' && mtime == mtime' && start == start' && len == len'
  {
    var p, p' := path + "@" + Decimal(Unsigned(mtime)), path' + "@" + Decimal(Unsigned(mtime'));
    var q, q' := p + "," + Decimal(Unsigned(start)), p' + "," + Decimal(Unsigned(start'));
    SplitAtLast(q, Decimal(len), q', Decimal(len'), '+');
    SplitAtLast(p, Decimal(Unsigned(start)), p', Decimal(Unsigned(start')), ',');
    SplitAtLast(path, Decimal(Unsigned(mtime)), path', Decimal(Unsigned(mtime')), '@');
    DecimalInjective(len, len');
    DecimalInjective(Unsigned(start), Unsigned(start'));
    DecimalInjective(Unsigned(mtime), Unsigned(mtime'));
  }
}
