/** The string operations the define store relies on: joining with ';', .NET's
    String.Split(';') and String.IsNullOrWhiteSpace, on strings as seq<char>. */
module Text {

  const Separator: char := ';'

  /** The segments joined by the separator: "" for no segments, the segment
      itself for one, "a;b;c" for three. */
  function Join(ds: seq<string>): (r: string)
    ensures ds != [] ==> ds[0] <= r
    ensures |ds| > 1 ==> ds[0] + [Separator] <= r
  {
    if ds == [] then ""
    else if |ds| == 1 then ds[0]
    else
      ds[0] + [Separator] + Join(ds[1..])
  }

  /** The number of occurrences of c in s. */
  function CountOf(s: string, c: char): nat
  {
    if s == [] then 0 else (if s[0] == c then 1 else 0) + CountOf(s[1..], c)
  }

  /** String.Split(';') with no options: every separator ends a segment, so the
      result has one segment more than the string has separators, empty ones
      included ("" gives [""], "a;" gives ["a", ""]). */
  function Split(s: string): (r: seq<string>)
    ensures |r| == CountOf(s, Separator) + 1
    ensures forall i :: 0 <= i < |r| ==> Separator !in r[i]
  {
    if s == [] then [""]
    else
      var rest := Split(s[1..]);
      if s[0] == Separator then [""] + rest
      else
        assert forall i :: 1 <= i < |rest| ==> ([[s[0]] + rest[0]] + rest[1..])[i] == rest[i];
        [[s[0]] + rest[0]] + rest[1..]
  }

  /** Char.IsWhiteSpace: the Unicode space, line and paragraph separators, the
      controls U+0009 to U+000D, U+0085 and U+00A0. */
  predicate IsWhiteSpace(c: char)
    ensures IsWhiteSpace(c) ==> c != Separator && c <= '\U{3000}'
  {
    || c == ' '
    || '\t' <= c <= '\r'
    || c == '\U{0085}' || c == '\U{00A0}' || c == '\U{1680}'
    || '\U{2000}' <= c <= '\U{200A}'
    || c == '\U{2028}' || c == '\U{2029}' || c == '\U{202F}' || c == '\U{205F}' || c == '\U{3000}'
  }

  /** String.IsNullOrWhiteSpace on a non-null string. */
  predicate IsWhiteSpaceOnly(s: string)
    ensures IsWhiteSpaceOnly(s) ==> Separator !in s
  {
    forall i :: 0 <= i < |s| ==> IsWhiteSpace(s[i])
  }

  /** Joining one more segment adds a separator and the segment. */
  lemma {:induction false} JoinAppend(ds: seq<string>, x: string)
    requires ds != []
    ensures Join(ds + [x]) == Join(ds) + [Separator] + x
  {
    if |ds| == 1 {
      assert (ds + [x])[1..] == [x];
    } else {
      assert (ds + [x])[1..] == ds[1..] + [x];
      JoinAppend(ds[1..], x);
    }
  }

  /** Splitting undoes joining when no segment holds the separator. */
  lemma {:induction false} SplitJoin(ds: seq<string>)
    requires ds != []
    requires forall i :: 0 <= i < |ds| ==> Separator !in ds[i]
    ensures Split(Join(ds)) == ds
  {
    if |ds| == 1 {
      SplitWithoutSeparator(ds[0]);
    } else {
      SplitJoin(ds[1..]);
      SplitAfterSegment(ds[0], Join(ds[1..]));
    }
  }

  /** Joining undoes splitting, for every string. */
  lemma {:induction false} JoinSplit(s: string)
    ensures Join(Split(s)) == s
  {
    if s != [] {
      var rest := Split(s[1..]);
      JoinSplit(s[1..]);
      if s[0] == Separator {
        assert ([""] + rest)[1..] == rest;
      } else if |rest| == 1 {
        assert s == [s[0]] + s[1..];
      } else {
        var r := [[s[0]] + rest[0]] + rest[1..];
        assert r[1..] == rest[1..];
        assert Join(rest) == rest[0] + [Separator] + Join(rest[1..]);
        assert s == [s[0]] + s[1..];
      }
    }
  }

  /** A string without a separator splits into itself alone. */
  lemma {:induction false} SplitWithoutSeparator(a: string)
    requires Separator !in a
    ensures Split(a) == [a]
  {
    if a != [] {
      SplitWithoutSeparator(a[1..]);
      assert a == [a[0]] + a[1..];
    }
  }

  /** A leading separator-free segment followed by a separator splits off as
      the first segment. */
  lemma {:induction false} SplitAfterSegment(a: string, b: string)
    requires Separator !in a
    ensures Split(a + [Separator] + b) == [a] + Split(b)
  {
    var s := a + [Separator] + b;
    if a == [] {
      assert s[1..] == b;
    } else {
      assert s[1..] == a[1..] + [Separator] + b;
      SplitAfterSegment(a[1..], b);
      assert a == [a[0]] + a[1..];
    }
  }
}
