/**
 * The search-path registry of pkg/yang/file.go: the exported list `Path` of
 * directories to look for .yang files in, and `pathMap`, which records the
 * directories already added so that `Path` gets no duplicates. The package
 * globals become an immutable `Registry` value threaded through the calls.
 */
module SearchPath {
  import opened GoStrings

  /** The separator between directory names in an `AddPath` argument. */
  const Separator: char := ':'

  /**
   * `Path` (in search order) and `pathMap`. Go's `map[string]bool` is only
   * ever assigned `true`, so it is the set of its keys.
   */
  datatype Registry = Registry(path: seq<string>, pathMap: set<string>)

  /** The state at program start: both globals empty. */
  const Empty := Registry([], {})

  /** The set of elements of a sequence. */
  function Elems(s: seq<string>): set<string> {
    set x | x in s
  }

  predicate NoDups(s: seq<string>) {
    forall i, j | 0 <= i < j < |s| :: s[i] != s[j]
  }

  /** Go's `pathMap[p]`: true exactly for the keys stored. */
  predicate Seen(reg: Registry, p: string) {
    p in reg.pathMap
  }

  /**
   * The registry invariant: `Path` has no duplicates and the keys of
   * `pathMap` are exactly the elements of `Path`.
   */
  predicate Valid(reg: Registry) {
    NoDups(reg.path) && reg.pathMap == Elems(reg.path)
  }

  lemma EmptyValid()
    ensures Valid(Empty)
    ensures Empty.path == []
  {
  }

  /** One iteration of the loop in `AddPath`: append `p` unless `pathMap` already has it. */
  function AddOne(reg: Registry, p: string): (r: Registry)
    ensures reg.path <= r.path
    ensures Seen(r, p)
    ensures forall k | Seen(reg, k) :: Seen(r, k)
    ensures Valid(reg) ==> Valid(r) && Elems(r.path) == Elems(reg.path) + {p}
    ensures Valid(reg) ==> (r == reg <==> p in reg.path)
  {
    if Seen(reg, p) then reg
    else Registry(reg.path + [p], reg.pathMap + {p})
  }

  /** The loop in `AddPath` over the segments, left to right. */
  function AddAll(reg: Registry, segs: seq<string>): (r: Registry)
    ensures reg.path <= r.path
    ensures forall i | 0 <= i < |segs| :: Seen(r, segs[i])
    ensures forall k | Seen(reg, k) :: Seen(r, k)
    decreases |segs|
  {
    if |segs| == 0 then reg
    else
      var r := AddAll(AddOne(reg, segs[0]), segs[1..]);
      assert forall i | 1 <= i < |segs| :: segs[i] == segs[1..][i - 1];
      r
  }

  /** The loop keeps the invariant, and the listed directories become the old ones plus the segments. */
  lemma {:induction false} AddAllValid(reg: Registry, segs: seq<string>)
    ensures Valid(reg) ==> Valid(AddAll(reg, segs))
    ensures Valid(reg) ==> Elems(AddAll(reg, segs).path) == Elems(reg.path) + Elems(segs)
    decreases |segs|
  {
    if |segs| > 0 {
      AddAllValid(AddOne(reg, segs[0]), segs[1..]);
      assert segs == [segs[0]] + segs[1..];
      assert Elems(segs) == {segs[0]} + Elems(segs[1..]);
    }
  }

  /**
   * `AddPath(path)`: split the argument on ':' and append every segment not
   * yet present, in left-to-right order. Empty segments are added as "".
   */
  function AddPath(reg: Registry, dirs: string): (r: Registry)
    ensures reg.path <= r.path
    ensures forall d | d in Split(dirs, Separator) :: Seen(r, d)
  {
    AddAll(reg, Split(dirs, Separator))
  }

  /**
   * `AddPath` keeps `Path` and `pathMap` in sync and duplicate-free, and
   * adds nothing but the ':'-separated segments of its argument.
   */
  lemma AddPathValid(reg: Registry, dirs: string)
    ensures Valid(reg) ==> Valid(AddPath(reg, dirs))
    ensures Valid(reg) ==> Elems(AddPath(reg, dirs).path) == Elems(reg.path) + Elems(Split(dirs, Separator))
  {
    AddAllValid(reg, Split(dirs, Separator));
  }

  // ---------------------------------------------------------------------
  // An independent description of what AddPath appends.

  /**
   * The members of `segs` that are not in `known`, each at its first
   * appearance, in order: the last segment is kept exactly when neither
   * `known` nor any earlier segment has it.
   */
  function FirstAppearances(known: set<string>, segs: seq<string>): seq<string>
    decreases |segs|
  {
    if |segs| == 0 then []
    else
      var init := segs[..|segs| - 1];
      var last := segs[|segs| - 1];
      var pre := FirstAppearances(known, init);
      if last in known || last in init then pre else pre + [last]
  }

  lemma {:induction false} FirstAppearancesElems(known: set<string>, segs: seq<string>)
    ensures Elems(FirstAppearances(known, segs)) == Elems(segs) - known
    decreases |segs|
  {
    if |segs| > 0 {
      var init := segs[..|segs| - 1];
      FirstAppearancesElems(known, init);
      assert segs == init + [segs[|segs| - 1]];
      var last := segs[|segs| - 1];
      var pre := FirstAppearances(known, init);
      assert Elems(segs) == Elems(init) + {last};
      assert Elems(pre + [last]) == Elems(pre) + {last};
    }
  }

  /**
   * The same list computed front to back with the set of directories seen so
   * far, the way the loop in `AddPath` visits the segments; it serves as a
   * stepping stone between AddAll and FirstAppearances.
   */
  function FreshInOrder(known: set<string>, segs: seq<string>): seq<string>
    decreases |segs|
  {
    if |segs| == 0 then []
    else if segs[0] in known then FreshInOrder(known, segs[1..])
    else [segs[0]] + FreshInOrder(known + {segs[0]}, segs[1..])
  }

  lemma {:induction false} FreshInOrderSnoc(known: set<string>, segs: seq<string>, x: string)
    ensures FreshInOrder(known, segs + [x]) ==
      FreshInOrder(known, segs) + (if x in known || x in segs then [] else [x])
    decreases |segs|
  {
    if |segs| == 0 {
      assert [] + [x] == [x];
    } else {
      var s0 := segs[0];
      var rest := segs[1..];
      assert (segs + [x])[0] == s0;
      assert (segs + [x])[1..] == rest + [x];
      assert x in segs <==> x == s0 || x in rest;
      if s0 in known {
        FreshInOrderSnoc(known, rest, x);
      } else {
        FreshInOrderSnoc(known + {s0}, rest, x);
      }
    }
  }

  /** The front-to-back and the back-to-front descriptions agree. */
  lemma {:induction false} FreshInOrderIsFirstAppearances(known: set<string>, segs: seq<string>)
    ensures FreshInOrder(known, segs) == FirstAppearances(known, segs)
    decreases |segs|
  {
    if |segs| > 0 {
      var init := segs[..|segs| - 1];
      var last := segs[|segs| - 1];
      assert segs == init + [last];
      FreshInOrderIsFirstAppearances(known, init);
      FreshInOrderSnoc(known, init, last);
    }
  }

  /** On a valid registry the loop appends exactly the new segments, front to back. */
  lemma {:induction false} AddAllAppendsFresh(reg: Registry, segs: seq<string>)
    requires Valid(reg)
    ensures AddAll(reg, segs).path == reg.path + FreshInOrder(Elems(reg.path), segs)
    decreases |segs|
  {
    if |segs| == 0 {
      assert reg.path + [] == reg.path;
    } else {
      var s0 := segs[0];
      var r1 := AddOne(reg, s0);
      AddAllAppendsFresh(r1, segs[1..]);
      if s0 in reg.path {
        assert r1 == reg;
      } else {
        assert r1.path == reg.path + [s0];
        assert Elems(r1.path) == Elems(reg.path) + {s0};
        assert reg.path + ([s0] + FreshInOrder(Elems(reg.path) + {s0}, segs[1..]))
          == (reg.path + [s0]) + FreshInOrder(Elems(reg.path) + {s0}, segs[1..]);
      }
    }
  }

  /** On a valid registry, the loop appends exactly the first appearances of new segments. */
  lemma AddAllAppendsFirstAppearances(reg: Registry, segs: seq<string>)
    requires Valid(reg)
    ensures AddAll(reg, segs).path == reg.path + FirstAppearances(Elems(reg.path), segs)
  {
    AddAllAppendsFresh(reg, segs);
    FreshInOrderIsFirstAppearances(Elems(reg.path), segs);
  }

  /**
   * `AddPath` only appends, and what it appends is each ':'-separated segment
   * not already present, once, in order of first appearance.
   */
  lemma AddPathAppendsFirstAppearances(reg: Registry, dirs: string)
    requires Valid(reg)
    ensures AddPath(reg, dirs).path == reg.path + FirstAppearances(Elems(reg.path), Split(dirs, Separator))
  {
    AddAllAppendsFirstAppearances(reg, Split(dirs, Separator));
  }

  /** The loop changes nothing when every segment is already recorded. */
  lemma {:induction false} AddAllAllSeen(reg: Registry, segs: seq<string>)
    requires forall i | 0 <= i < |segs| :: Seen(reg, segs[i])
    ensures AddAll(reg, segs) == reg
    decreases |segs|
  {
    if |segs| > 0 {
      assert Seen(reg, segs[0]);
      assert forall i | 0 <= i < |segs[1..]| :: segs[1..][i] == segs[i + 1];
      AddAllAllSeen(reg, segs[1..]);
    }
  }

  /** Adding the same directories twice gives the same state as adding them once. */
  lemma AddPathIdempotent(reg: Registry, dirs: string)
    ensures AddPath(AddPath(reg, dirs), dirs) == AddPath(reg, dirs)
  {
    var segs := Split(dirs, Separator);
    AddAllAllSeen(AddAll(reg, segs), segs);
  }

  lemma FreshInOrderPair(known: set<string>, x: string, y: string)
    ensures FreshInOrder(known, [x, y]) ==
      (if x in known then [] else [x]) + (if y in known || y == x then [] else [y])
  {
    assert [x, y][1..] == [y] && [y][1..] == [];
    var b := if y in known || y == x then [] else [y];
    if x in known {
      assert FreshInOrder(known, [x, y]) == FreshInOrder(known, [y]);
      assert FreshInOrder(known, [y]) == b;
      assert [] + b == b;
    } else {
      assert FreshInOrder(known, [x, y]) == [x] + FreshInOrder(known + {x}, [y]);
      assert FreshInOrder(known + {x}, [y]) == b;
    }
  }

  /** Registering "x:y" on a valid registry appends the names not yet present, x first. */
  lemma AddPathPair(reg: Registry, x: string, y: string)
    requires Valid(reg)
    requires Separator !in x && Separator !in y
    ensures AddPath(reg, x + [Separator] + y).path ==
      reg.path + (if x in reg.path then [] else [x])
               + (if y in reg.path || y == x then [] else [y])
  {
    SplitPair(x, y, Separator);
    assert AddPath(reg, x + [Separator] + y) == AddAll(reg, [x, y]);
    AddAllAppendsFresh(reg, [x, y]);
    FreshInOrderPair(Elems(reg.path), x, y);
    var a := if x in reg.path then [] else [x];
    var b := if y in reg.path || y == x then [] else [y];
    assert FreshInOrder(Elems(reg.path), [x, y]) == a + b;
    assert reg.path + (a + b) == reg.path + a + b;
  }

  /**
   * Registering "a:b" and then "b:c" on a fresh registry yields [a, b, c],
   * for any three distinct directory names without ':'.
   */
  lemma AddPathExample(a: string, b: string, c: string)
    requires Separator !in a && Separator !in b && Separator !in c
    requires a != b && b != c && a != c
    ensures AddPath(AddPath(Empty, a + [Separator] + b), b + [Separator] + c).path == [a, b, c]
  {
    EmptyValid();
    AddPathPair(Empty, a, b);
    var r1 := AddPath(Empty, a + [Separator] + b);
    AddPathValid(Empty, a + [Separator] + b);
    assert r1.path == [] + [a] + [b] == [a, b];
    AddPathPair(r1, b, c);
    assert b in r1.path && c !in r1.path;
    assert r1.path + [] + [c] == [a, b, c];
  }

  /** Running the loop over `s` and then over `t` is running it once over `s + t`. */
  lemma {:induction false} AddAllConcat(reg: Registry, s: seq<string>, t: seq<string>)
    ensures AddAll(AddAll(reg, s), t) == AddAll(reg, s + t)
    decreases |s|
  {
    if |s| == 0 {
      assert s + t == t;
    } else {
      AddAllConcat(AddOne(reg, s[0]), s[1..], t);
      assert (s + t)[0] == s[0];
      assert (s + t)[1..] == s[1..] + t;
    }
  }

  /**
   * Registration does not depend on grouping: adding `p` and then `q` is the
   * same as adding `p:q` in one call, so any sequence of calls yields each
   * directory once, in order of first appearance over all the arguments.
   */
  lemma AddPathConcat(reg: Registry, p: string, q: string)
    ensures AddPath(AddPath(reg, p), q) == AddPath(reg, p + [Separator] + q)
  {
    SplitConcat(p, q, Separator);
    AddAllConcat(reg, Split(p, Separator), Split(q, Separator));
  }

  /** An empty argument registers the empty directory name. */
  lemma AddPathEmptyString(reg: Registry)
    requires Valid(reg)
    ensures "" in AddPath(reg, "").path
    ensures AddPath(reg, "").path == if "" in reg.path then reg.path else reg.path + [""]
  {
    SplitEmpty(Separator);
    AddAllAppendsFresh(reg, [""]);
    assert [""][1..] == [];
    assert Seen(reg, "") <==> "" in reg.path;
  }
}
