/**
 The identity of an axis set: sorted parameter names joined by commas, the string that
 repo/hypothesis_audit.py feeds to SHA-256 and repo/reviews.py puts into a review target.
 Strings compare by code point, as Python compares them.
 */
module AxisSet {
  predicate Leq(a: string, b: string) {
    a == "" || (b != "" && (a[0] < b[0] || (a[0] == b[0] && Leq(a[1..], b[1..]))))
  }

  lemma {:induction false} LeqTotal(a: string, b: string)
    ensures Leq(a, b) || Leq(b, a)
  {
    if a != "" && b != "" && a[0] == b[0] {
      LeqTotal(a[1..], b[1..]);
    }
  }

  lemma {:induction false} LeqAntisymmetric(a: string, b: string)
    requires Leq(a, b) && Leq(b, a)
    ensures a == b
  {
    if a != "" {
      LeqAntisymmetric(a[1..], b[1..]);
      assert a == [a[0]] + a[1..] && b == [b[0]] + b[1..];
    }
  }

  lemma {:induction false} LeqTransitive(a: string, b: string, c: string)
    requires Leq(a, b) && Leq(b, c)
    ensures Leq(a, c)
  {
    if a != "" && a[0] == b[0] && b[0] == c[0] {
      LeqTransitive(a[1..], b[1..], c[1..]);
    }
  }

  ghost predicate Sorted(s: seq<string>) {
    forall i, j | 0 <= i <= j < |s| :: Leq(s[i], s[j])
  }

  function Insert(x: string, s: seq<string>): seq<string> {
    if s == [] then [x] else if Leq(x, s[0]) then [x] + s else [s[0]] + Insert(x, s[1..])
  }

  function Sort(s: seq<string>): seq<string> {
    if s == [] then [] else Insert(s[0], Sort(s[1..]))
  }

  lemma {:induction false} InsertSorted(x: string, s: seq<string>)
    requires Sorted(s)
    ensures Sorted(Insert(x, s)) && multiset(Insert(x, s)) == multiset(s) + multiset{x}
  {
    hide Leq;
    LeqTotal(x, x);
    if s != [] {
      LeqTotal(x, s[0]);
      assert s == [s[0]] + s[1..];
      if Leq(x, s[0]) {
        forall j | 0 <= j < |s| ensures Leq(x, s[j]) {
          LeqTransitive(x, s[0], s[j]);
        }
      } else {
        var rest := Insert(x, s[1..]);
        InsertSorted(x, s[1..]);
        LeqTotal(s[0], s[0]);
        forall j | 0 <= j < |rest| ensures Leq(s[0], rest[j]) {
          assert rest[j] in multiset(rest);
          assert rest[j] == x || rest[j] in s[1..];
        }
      }
    }
  }

  lemma {:induction false} SortSorts(s: seq<string>)
    ensures Sorted(Sort(s)) && multiset(Sort(s)) == multiset(s)
  {
    if s != [] {
      assert s == [s[0]] + s[1..];
      SortSorts(s[1..]);
      InsertSorted(s[0], Sort(s[1..]));
    }
  }

  lemma TailBag(s: seq<string>)
    requires s != []
    ensures multiset(s[1..]) == multiset(s) - multiset{s[0]} && s == [s[0]] + s[1..]
  {
    assert s == [s[0]] + s[1..];
  }

  lemma HeadLeast(s: seq<string>, x: string)
    requires Sorted(s) && x in multiset(s)
    ensures Leq(s[0], x)
  {
  }

  lemma {:induction false} SortedUnique(a: seq<string>, b: seq<string>)
    requires Sorted(a) && Sorted(b) && multiset(a) == multiset(b)
    ensures a == b
  {
    hide Leq;
    if a == [] {
      assert |multiset(b)| == 0;
    } else {
      assert |multiset(b)| == |multiset(a)| > 0;
      HeadLeast(a, b[0]);
      HeadLeast(b, a[0]);
      LeqAntisymmetric(a[0], b[0]);
      TailBag(a);
      TailBag(b);
      SortedUnique(a[1..], b[1..]);
    }
  }

  function Join(names: seq<string>): string {
    if names == [] then "" else if |names| == 1 then names[0] else names[0] + "," + Join(names[1..])
  }

  /** The names between commas, like str.split(","). */
  function Split(s: string): (names: seq<string>)
    ensures names != []
  {
    if s == "" then [""]
    else
      var rest := Split(s[1..]);
      if s[0] == ',' then [""] + rest else [[s[0]] + rest[0]] + rest[1..]
  }

  predicate CommaFree(names: seq<string>) {
    forall i | 0 <= i < |names| :: ',' !in names[i]
  }

  lemma {:induction false} SplitOne(name: string, tail: string)
    requires ',' !in name
    ensures Split(name) == [name]
    ensures Split(name + "," + tail) == [name] + Split(tail)
  {
    var s := name + "," + tail;
    if name == "" {
      assert s[1..] == tail;
    } else {
      SplitOne(name[1..], tail);
      assert s[1..] == name[1..] + "," + tail;
      assert [s[0]] + name[1..] == name;
      assert ([name[1..]] + Split(tail))[1..] == Split(tail);
      assert [name[1..]][1..] == [];
    }
  }

  lemma {:induction false} SplitJoin(names: seq<string>)
    requires CommaFree(names) && names != []
    ensures Split(Join(names)) == names
  {
    if |names| == 1 {
      SplitOne(names[0], "");
    } else {
      SplitJoin(names[1..]);
      SplitOne(names[0], Join(names[1..]));
    }
  }

  lemma {:induction false} JoinSplit(s: string)
    ensures CommaFree(Split(s)) && Join(Split(s)) == s
  {
    if s != "" {
      var rest := Split(s[1..]);
      JoinSplit(s[1..]);
      if s[0] == ',' {
        assert ([""] + rest)[1..] == rest;
      } else {
        var names := [[s[0]] + rest[0]] + rest[1..];
        assert names[1..] == rest[1..];
      }
    }
  }

  /** The pre-hash string of axis_set_hash. */
  function Canonical(names: seq<string>): string {
    Join(Sort(names))
  }

  /** Order never matters, whatever the names. */
  lemma OrderIrrelevant(a: seq<string>, b: seq<string>)
    requires multiset(a) == multiset(b)
    ensures Canonical(a) == Canonical(b)
  {
    SortSorts(a);
    SortSorts(b);
    SortedUnique(Sort(a), Sort(b));
  }

  lemma SplitCanonical(names: seq<string>)
    requires CommaFree(names) && names != []
    ensures Split(Canonical(names)) == Sort(names)
  {
    SortSorts(names);
    forall i | 0 <= i < |Sort(names)| ensures ',' !in Sort(names)[i] {
      assert Sort(names)[i] in multiset(names);
    }
    assert |multiset(Sort(names))| == |names|;
    SplitJoin(Sort(names));
  }

  lemma OnlyEmptyName(b: seq<string>)
    requires CommaFree(b) && b != []
    ensures Canonical(b) == "" <==> b == [""]
  {
    SplitCanonical(b);
    SortSorts(b);
    if Canonical(b) == "" {
      assert multiset(b) == multiset{""};
      assert |b| == |multiset(b)| == 1 && b[0] in multiset(b);
    }
  }

  /**
   Comma-free lists share a canonical string exactly when they are the same multiset of names;
   the one exception is that no names and the one empty name look alike.
   */
  lemma CanonicalIff(a: seq<string>, b: seq<string>)
    requires CommaFree(a) && CommaFree(b)
    ensures Canonical(a) == Canonical(b) <==> multiset(a) == multiset(b) || a + b == [""]
  {
    if multiset(a) == multiset(b) {
      OrderIrrelevant(a, b);
    } else if a == [] {
      OnlyEmptyName(b);
      assert a + b == b;
    } else if b == [] {
      OnlyEmptyName(a);
      assert a + b == a;
    } else {
      SplitCanonical(a);
      SplitCanonical(b);
      SortSorts(a);
      SortSorts(b);
    }
  }

  // ---- Names with commas ----

  function SplitAll(names: seq<string>): seq<string> {
    if names == [] then [] else Split(names[0]) + SplitAll(names[1..])
  }

  /** What is left of a list of names once it is sorted and joined: its pieces between commas. */
  function Pieces(names: seq<string>): seq<string> {
    if names == [] then [""] else SplitAll(Sort(names))
  }

  lemma PrependHead(c: char, r: seq<string>, t: seq<string>)
    requires r != []
    ensures [[c] + (r + t)[0]] + (r + t)[1..] == ([[c] + r[0]] + r[1..]) + t
    ensures [""] + (r + t) == ([""] + r) + t
  {
    assert (r + t)[1..] == r[1..] + t;
  }

  lemma SplitCons(s: string)
    requires s != ""
    ensures var rest := Split(s[1..]);
      Split(s) == if s[0] == ',' then [""] + rest else [[s[0]] + rest[0]] + rest[1..]
  {
  }

  lemma {:induction false} SplitConcat(a: string, b: string)
    ensures Split(a + "," + b) == Split(a) + Split(b)
  {
    hide Split;
    var s := a + "," + b;
    SplitCons(s);
    if a == "" {
      assert s[1..] == b;
      SplitEmpty();
    } else {
      SplitConcat(a[1..], b);
      assert s[1..] == a[1..] + "," + b;
      SplitCons(a);
      PrependHead(s[0], Split(a[1..]), Split(b));
    }
  }

  lemma SplitEmpty()
    ensures Split("") == [""]
  {
  }

  lemma {:induction false} SplitJoinAll(names: seq<string>)
    requires names != []
    ensures Split(Join(names)) == SplitAll(names)
  {
    if |names| == 1 {
      assert SplitAll(names[1..]) == [];
    } else {
      SplitJoinAll(names[1..]);
      SplitConcat(names[0], Join(names[1..]));
    }
  }

  /**
   Any two lists, whatever their names, share a canonical string exactly when they have the same
   pieces in the same order.
   */
  lemma PiecesIff(a: seq<string>, b: seq<string>)
    ensures Canonical(a) == Canonical(b) <==> Pieces(a) == Pieces(b)
  {
    CanonicalPieces(a);
    CanonicalPieces(b);
    JoinSplit(Canonical(a));
    JoinSplit(Canonical(b));
  }

  lemma CanonicalPieces(a: seq<string>)
    ensures Split(Canonical(a)) == Pieces(a)
  {
    if a != [] {
      SortSorts(a);
      assert |multiset(Sort(a))| == |a|;
      SplitJoinAll(Sort(a));
    }
  }

  /** b is a different axis set that is taken for a. */
  ghost predicate Confused(a: seq<string>, b: seq<string>) {
    b != [] && Canonical(a) == Canonical(b) && multiset(a) != multiset(b)
  }

  /** The name is the join of two names in sorted order. */
  ghost predicate CutsSorted(name: string) {
    exists p :: CutAt(name, p)
  }

  predicate CutAt(name: string, p: int) {
    0 <= p < |name| && name[p] == ',' && Leq(name[..p], name[p + 1..])
  }

  lemma {:induction false} LeqPrefix(a: string, b: string)
    ensures Leq(a, a + b)
  {
    if a != "" {
      LeqPrefix(a[1..], b);
      assert (a + b)[1..] == a[1..] + b;
    }
  }

  lemma SortOne(name: string)
    ensures Sort([name]) == [name] && Canonical([name]) == name
  {
    assert [name][1..] == [];
    assert Sort([name][1..]) == [];
  }

  lemma SortTwo(x: string, y: string)
    requires Leq(x, y)
    ensures Canonical([x, y]) == x + "," + y
  {
    SortOne(y);
    assert [x, y][1..] == [y];
    assert Sort([x, y]) == [x, y];
    assert Join([x, y][1..]) == y;
  }

  lemma OneName(a: seq<string>)
    requires |a| == 1
    ensures Canonical(a) == a[0]
  {
    SortOne(a[0]);
    assert a == [a[0]];
  }

  lemma JoinHead(names: seq<string>) returns (tail: string)
    requires names != []
    ensures Join(names) == names[0] + tail
    ensures |names| >= 2 ==> tail == "," + Join(names[1..])
  {
    tail := if |names| == 1 then "" else "," + Join(names[1..]);
  }

  lemma JoinCuts(names: seq<string>)
    requires Sorted(names) && |names| >= 2
    ensures CutsSorted(Join(names))
  {
    hide Leq, Join;
    var p, rest := |names[0]|, Join(names[1..]);
    var tail := JoinHead(names);
    var more := JoinHead(names[1..]);
    LeqPrefix(names[1], more);
    LeqTransitive(names[0], names[1], rest);
    assert names[0] + ("," + rest) == names[0] + "," + rest;
    CutOf(names[0], rest);
    assert CutAt(Join(names), p);
  }

  lemma CutOf(x: string, y: string)
    ensures var s := x + "," + y;
      |x| < |s| && s[|x|] == ',' && s[..|x|] == x && s[|x| + 1..] == y
  {
  }

  lemma LongNameLooksAlike(a: seq<string>)
    requires |a| >= 2
    ensures Confused(a, [Canonical(a)])
  {
    hide Canonical;
    SortOne(Canonical(a));
    assert |multiset(a)| != |multiset([Canonical(a)])|;
  }

  lemma CutNameLooksAlike(name: string, p: int)
    requires CutAt(name, p)
    ensures Confused([name], [name[..p], name[p + 1..]])
  {
    hide Leq, Canonical;
    SortOne(name);
    SortTwo(name[..p], name[p + 1..]);
    assert name == name[..p] + "," + name[p + 1..];
    assert |multiset([name])| != |multiset([name[..p], name[p + 1..]])|;
  }

  lemma ConfusedNameCuts(name: string, b: seq<string>)
    requires Confused([name], b)
    ensures CutsSorted(name)
  {
    SortOne(name);
    hide Leq, Sort, Join;
    SortSorts(b);
    assert |Sort(b)| == |multiset(Sort(b))| == |b|;
    assert |b| == 1 ==> b == [b[0]];
    if |b| == 1 {
      OneName(b);
    } else {
      JoinCuts(Sort(b));
    }
  }

  /**
   The names are not validated, so a comma can merge axis sets. A nonempty list is taken for some
   other nonempty list exactly when it has two names or more (it looks like the one long name)
   or its one name is two sorted names joined. So only a single name is ever unmistakable.
   */
  lemma ConfusedIff(a: seq<string>)
    requires a != []
    ensures (exists b :: Confused(a, b)) <==> |a| >= 2 || CutsSorted(a[0])
  {
    hide Canonical, CutAt;
    if |a| >= 2 {
      LongNameLooksAlike(a);
    } else {
      assert a == [a[0]];
      if p :| CutAt(a[0], p) {
        CutsInside(a[0], p);
        CutNameLooksAlike(a[0], p);
      }
      if b :| Confused(a, b) {
        ConfusedNameCuts(a[0], b);
      }
    }
  }

  lemma CutsInside(name: string, p: int)
    requires CutAt(name, p)
    ensures 0 <= p < |name|
  {
  }

  /** Two requests with different axes that look alike, neither of them a permutation of the other. */
  lemma ConfusedAxes()
    ensures Confused(["b,a", "c"], ["b,a,c"]) && Confused(["a", "b"], ["a,b"])
  {
    SortTwo("b,a", "c");
    SortTwo("a", "b");
    hide Leq, Sort, Join, Confused;
    assert "b,a" + "," + "c" == "b,a,c" && "a" + "," + "b" == "a,b";
    LongNameLooksAlike(["b,a", "c"]);
    LongNameLooksAlike(["a", "b"]);
  }

  /** plan_target_id, for a given hash of the canonical string. */
  function PlanTarget(hash: string -> string, strategy: string, names: seq<string>, hypothesis: string): string {
    "plan:" + strategy + ":" + hash(Canonical(names)) + ":" + hypothesis
  }

  /** A digest in hexadecimal: 64 characters, none of them a colon. */
  ghost predicate Digest(hash: string -> string) {
    forall s :: |hash(s)| == 64 && ':' !in hash(s)
  }

  /** The hash has no collision on these two lists of names. */
  ghost predicate NoCollision(hash: string -> string, a: seq<string>, b: seq<string>) {
    hash(Canonical(a)) == hash(Canonical(b)) ==> Canonical(a) == Canonical(b)
  }

  /**
   Where the longer prefix ends there is a colon, and within 60 characters the shorter one still has
   its digest there.
   */
  lemma PrefixesDiffer(s: string, x: string, h: string, t: string, y: string, k: string)
    requires |s| < |t| <= 60 && |x| == 64 && ':' !in x
    ensures s + ":" + x + ":" + h != t + ":" + y + ":" + k
  {
    var p, q := s + ":" + x + ":" + h, t + ":" + y + ":" + k;
    assert q[|t|] == ':';
    assert p[|t|] == x[|t| - |s| - 1];
    assert x[|t| - |s| - 1] in x;
  }

  lemma SameParts(s: string, x: string, h: string, t: string, y: string, k: string)
    requires |s| == |t| && |x| == |y| && s + ":" + x + ":" + h == t + ":" + y + ":" + k
    ensures s == t && x == y && h == k
  {
    var p, q := s + ":" + x + ":" + h, t + ":" + y + ":" + k;
    assert p[..|s|] == s && q[..|s|] == t;
    assert p[|s| + 1..][..|x|] == x && q[|s| + 1..][..|x|] == y;
    assert p[|s| + |x| + 2..] == h && q[|s| + |x| + 2..] == k;
  }

  /**
   A review target names one strategy, one axis set and one hypothesis: for strategy codes within
   the limit of 60 characters, and whatever else stands in them, in the names and in the
   hypothesis, two requests share a target exactly when all three agree, the axes by their pieces
   (for comma-free names, as multisets: CanonicalIff).
   */
  lemma TargetIff(hash: string -> string, s: string, a: seq<string>, h: string, t: string, b: seq<string>, k: string)
    requires Digest(hash) && NoCollision(hash, a, b) && |s| <= 60 && |t| <= 60
    ensures PlanTarget(hash, s, a, h) == PlanTarget(hash, t, b, k) <==> s == t && Pieces(a) == Pieces(b) && h == k
  {
    hide Canonical, Pieces;
    PiecesIff(a, b);
    var x, y := hash(Canonical(a)), hash(Canonical(b));
    var p, q := s + ":" + x + ":" + h, t + ":" + y + ":" + k;
    assert PlanTarget(hash, s, a, h) == "plan:" + p && PlanTarget(hash, t, b, k) == "plan:" + q;
    assert ("plan:" + p)[5..] == p && ("plan:" + q)[5..] == q;
    if |s| < |t| {
      PrefixesDiffer(s, x, h, t, y, k);
    } else if |t| < |s| {
      PrefixesDiffer(t, y, k, s, x, h);
    } else if p == q {
      SameParts(s, x, h, t, y, k);
    }
  }

  /** For one strategy and one hypothesis no limit is needed: the target varies with the axis set alone. */
  lemma TargetOfAxesIff(hash: string -> string, s: string, a: seq<string>, b: seq<string>, h: string)
    requires NoCollision(hash, a, b) && |hash(Canonical(a))| == |hash(Canonical(b))|
    ensures PlanTarget(hash, s, a, h) == PlanTarget(hash, s, b, h) <==> Canonical(a) == Canonical(b)
  {
    hide Canonical;
    var x, y := hash(Canonical(a)), hash(Canonical(b));
    var p, q := s + ":" + x + ":" + h, s + ":" + y + ":" + h;
    assert PlanTarget(hash, s, a, h) == "plan:" + p && PlanTarget(hash, s, b, h) == "plan:" + q;
    if PlanTarget(hash, s, a, h) == PlanTarget(hash, s, b, h) {
      assert ("plan:" + p)[5..] == p && ("plan:" + q)[5..] == q;
      SameParts(s, x, h, s, y, h);
    }
  }
}
