/**
 * The few functions of Go's `strings` package that module-file resolution uses,
 * over `string` as `seq<char>` (one character stands for one byte).
 */
module GoStrings {

  /** `strings.Index(s, string(c))`: the position of the first `c` in `s`, or -1. */
  function IndexOf(s: string, c: char): (r: int)
    ensures r == -1 <==> c !in s
    ensures r != -1 ==> 0 <= r < |s| && s[r] == c && c !in s[..r]
  {
    if |s| == 0 then -1
    else if s[0] == c then 0
    else
      var k := IndexOf(s[1..], c);
      if k < 0 then -1
      else
        assert s[..k + 1] == [s[0]] + s[1..][..k];
        k + 1
  }

  /** `strings.HasSuffix(s, suffix)`. */
  predicate HasSuffix(s: string, suffix: string) {
    |suffix| <= |s| && s[|s| - |suffix|..] == suffix
  }

  /** `strings.Join(parts, string(sep))`: the parts with one `sep` between neighbours. */
  function JoinWith(parts: seq<string>, sep: char): string {
    if |parts| == 0 then ""
    else if |parts| == 1 then parts[0]
    else parts[0] + [sep] + JoinWith(parts[1..], sep)
  }

  /**
   * `strings.Split(s, string(sep))`: the pieces of `s` between occurrences of
   * `sep`. There is always at least one piece; the empty string and leading,
   * trailing or doubled separators produce empty pieces.
   */
  function Split(s: string, sep: char): (r: seq<string>)
    ensures |r| >= 1
    ensures forall i | 0 <= i < |r| :: sep !in r[i]
    ensures JoinWith(r, sep) == s
    decreases |s|
  {
    var k := IndexOf(s, sep);
    if k < 0 then [s]
    else
      var rest := Split(s[k + 1..], sep);
      assert s == s[..k] + [sep] + s[k + 1..];
      [s[..k]] + rest
  }

  /** Splitting undoes joining: a non-empty list of separator-free pieces is recovered exactly. */
  lemma {:induction false} SplitJoin(parts: seq<string>, sep: char)
    requires |parts| >= 1
    requires forall i | 0 <= i < |parts| :: sep !in parts[i]
    ensures Split(JoinWith(parts, sep), sep) == parts
    decreases |parts|
  {
    if |parts| == 1 {
      assert sep !in parts[0];
    } else {
      var p := parts[0];
      var tail := JoinWith(parts[1..], sep);
      var s := p + [sep] + tail;
      assert s[|p|] == sep;
      assert s[..|p|] == p;
      assert IndexOf(s, sep) == |p|;
      assert s[|p| + 1..] == tail;
      SplitJoin(parts[1..], sep);
      assert parts == [p] + parts[1..];
    }
  }

  /** Joining two non-empty lists puts one separator between their joins. */
  lemma {:induction false} JoinWithAppend(a: seq<string>, b: seq<string>, sep: char)
    requires |a| >= 1 && |b| >= 1
    ensures JoinWith(a + b, sep) == JoinWith(a, sep) + [sep] + JoinWith(b, sep)
    decreases |a|
  {
    if |a| == 1 {
      assert a + b == [a[0]] + b;
      assert (a + b)[1..] == b;
    } else {
      JoinWithAppend(a[1..], b, sep);
      assert (a + b)[0] == a[0];
      assert (a + b)[1..] == a[1..] + b;
    }
  }

  /** Two separator-free names joined by the separator split back into the two names. */
  lemma SplitPair(x: string, y: string, sep: char)
    requires sep !in x && sep !in y
    ensures Split(x + [sep] + y, sep) == [x, y]
  {
    assert JoinWith([x, y], sep) == x + [sep] + y by {
      assert [x, y][1..] == [y];
    }
    SplitJoin([x, y], sep);
  }

  /** Splitting `p`, the separator and `q` gives the pieces of `p` followed by those of `q`. */
  lemma SplitConcat(p: string, q: string, sep: char)
    ensures Split(p + [sep] + q, sep) == Split(p, sep) + Split(q, sep)
  {
    var parts := Split(p, sep) + Split(q, sep);
    JoinWithAppend(Split(p, sep), Split(q, sep), sep);
    assert forall i | 0 <= i < |parts| :: sep !in parts[i] by {
      forall i | 0 <= i < |parts|
        ensures sep !in parts[i]
      {
        if i < |Split(p, sep)| {
          assert parts[i] == Split(p, sep)[i];
        } else {
          assert parts[i] == Split(q, sep)[i - |Split(p, sep)|];
        }
      }
    }
    SplitJoin(parts, sep);
  }

  /** The empty string splits into one empty piece. */
  lemma SplitEmpty(sep: char)
    ensures Split("", sep) == [""]
  {
  }

  /** Leading, trailing and doubled separators each contribute an empty piece. */
  lemma SplitKeepsEmptyPieces()
    ensures Split(":a", ':') == ["", "a"]
    ensures Split("a:", ':') == ["a", ""]
    ensures Split("a::b", ':') == ["a", "", "b"]
  {
    SplitJoin(["", "a"], ':');
    assert JoinWith(["a", ""], ':') == "a:" by {
      assert JoinWith([""], ':') == "";
    }
    SplitJoin(["a", ""], ':');
    assert JoinWith(["a", "", "b"], ':') == "a::b" by {
      assert JoinWith(["b"], ':') == "b";
      assert JoinWith(["", "b"], ':') == ":b";
    }
    SplitJoin(["a", "", "b"], ':');
  }
}
