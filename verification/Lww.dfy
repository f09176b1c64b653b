/** Last-write-wins merging of field mutations: the fold the code runs, and its
    meaning as the latest op of each cell of a set of ops. */
module Lww {
  import opened Hlc

  /** JSON text; merging only compares and copies values. */
  type Value = string

  datatype Cell = Cell(doc: string, field: string)

  datatype Op = Op(id: string, doc: string, field: string, value: Value, ts: HLC, dev: string)
  {
    function Key(): Cell { Cell(doc, field) }
  }

  type CellMap = map<Cell, Op>

  // ----- The fold -----

  function Apply(w: CellMap, op: Op): CellMap
  {
    if op.Key() !in w || Before(w[op.Key()].ts, op.ts) then w[op.Key() := op] else w
  }

  function Fold(w: CellMap, ops: seq<Op>): CellMap
  {
    if ops == [] then w else Apply(Fold(w, ops[..|ops| - 1]), ops[|ops| - 1])
  }

  function Merged(ops: seq<Op>): CellMap
  {
    Fold(map[], ops)
  }

  /** Cellwise later of two merges; the left one keeps ties. */
  function Join(a: CellMap, b: CellMap): CellMap
  {
    map c | c in a.Keys + b.Keys ::
      if c !in b || (c in a && !Before(a[c].ts, b[c].ts)) then a[c] else b[c]
  }

  // ----- The meaning -----

  function SetOf(ops: seq<Op>): set<Op>
  {
    set o | o in ops
  }

  function CellsOf(s: set<Op>): set<Cell>
  {
    set o | o in s :: o.Key()
  }

  /** No op of the same cell is after o. */
  predicate Wins(s: set<Op>, o: Op)
  {
    o in s && forall x :: x in s && x.Key() == o.Key() ==> !Before(o.ts, x.ts)
  }

  /** One latest op for every cell that occurs in s. */
  ghost predicate IsWinnerMap(s: set<Op>, w: CellMap)
  {
    && w.Keys == CellsOf(s)
    && forall c :: c in w ==> w[c].Key() == c && Wins(s, w[c])
  }

  /** Distinct ops of one cell have distinct stamps. */
  ghost predicate TieFree(s: set<Op>)
  {
    forall a, b :: a in s && b in s && a.Key() == b.Key() && a.ts == b.ts ==> a == b
  }

  ghost predicate DistinctStamps(s: set<Op>)
  {
    forall a, b :: a in s && b in s && a.ts == b.ts ==> a == b
  }

  /** The winner of every cell is the only op with its stamp there. */
  ghost predicate TopTieFree(s: set<Op>)
  {
    forall a, b :: Wins(s, a) && Wins(s, b) && a.Key() == b.Key() ==> a == b
  }

  lemma TieFreeTop(s: set<Op>)
    requires TieFree(s)
    ensures TopTieFree(s)
  {
    forall a, b | Wins(s, a) && Wins(s, b) && a.Key() == b.Key() ensures a == b {
      BeforeTotal(a.ts, b.ts);
    }
  }

  lemma WinnerMapUnique(s: set<Op>, w: CellMap, v: CellMap)
    requires TopTieFree(s) && IsWinnerMap(s, w) && IsWinnerMap(s, v)
    ensures w == v
  {
    forall c | c in w ensures w[c] == v[c] {
      assert Wins(s, w[c]) && Wins(s, v[c]);
    }
  }

  /** Folding computes a winner map, whatever order or duplicates the ops come in. */
  lemma {:induction false} MergedIsWinnerMap(ops: seq<Op>)
    ensures IsWinnerMap(SetOf(ops), Merged(ops))
  {
    if ops != [] {
      var pre, op := ops[..|ops| - 1], ops[|ops| - 1];
      assert ops == pre + [op];
      MergedIsWinnerMap(pre);
      ApplyWinnerMap(SetOf(pre), Merged(pre), op);
      assert SetOf(ops) == SetOf(pre) + {op};
    }
  }

  /** Ties go to whichever came first: of the ops of a cell with its latest stamp, merging keeps the first. */
  lemma {:induction false} FirstLatestWins(ops: seq<Op>, c: Cell) returns (i: nat)
    requires c in Merged(ops)
    ensures i < |ops| && Merged(ops)[c] == ops[i] && ops[i].Key() == c
    ensures forall j :: 0 <= j < i && ops[j].Key() == c ==> Before(ops[j].ts, ops[i].ts)
    ensures forall j :: i < j < |ops| && ops[j].Key() == c ==> !Before(ops[i].ts, ops[j].ts)
  {
    var pre, op := ops[..|ops| - 1], ops[|ops| - 1];
    var w := Merged(pre);
    if op.Key() == c && (c !in w || Before(w[c].ts, op.ts)) {
      i := |ops| - 1;
      MergedIsWinnerMap(pre);
      forall j | 0 <= j < i && ops[j].Key() == c ensures Before(ops[j].ts, op.ts) {
        assert pre[j] in SetOf(pre) && pre[j].Key() in CellsOf(SetOf(pre));
        BeforeStrictTotalOrder(ops[j].ts, w[c].ts, op.ts);
        BeforeStrictTotalOrder(w[c].ts, ops[j].ts, op.ts);
      }
    } else {
      i := FirstLatestWins(pre, c);
    }
  }

  lemma ApplyWinnerMap(s: set<Op>, w: CellMap, op: Op)
    requires IsWinnerMap(s, w)
    ensures IsWinnerMap(s + {op}, Apply(w, op))
  {
    var v := Apply(w, op);
    var t := s + {op};
    assert CellsOf(t) == CellsOf(s) + {op.Key()};
    forall c | c in v ensures v[c].Key() == c && Wins(t, v[c]) {
      forall x | x in t && x.Key() == c ensures !Before(v[c].ts, x.ts) {
        BeforeIrreflexive(op.ts);
        if c == op.Key() && c in w {
          BeforeStrictTotalOrder(w[c].ts, op.ts, x.ts);
        } else if c == op.Key() {
          assert x !in s;
        }
      }
    }
  }

  lemma {:induction false} WinnerMapExists(s: set<Op>)
    ensures exists w :: IsWinnerMap(s, w)
  {
    if s == {} {
      var w: CellMap := map[];
      assert IsWinnerMap(s, w);
    } else {
      var op :| op in s;
      WinnerMapExists(s - {op});
      var w :| IsWinnerMap(s - {op}, w);
      ApplyWinnerMap(s - {op}, w, op);
      assert s - {op} + {op} == s;
    }
  }

  /** The last-write-wins state of a set of ops. */
  ghost function Winners(s: set<Op>): (w: CellMap)
    ensures IsWinnerMap(s, w)
  {
    WinnerMapExists(s);
    var w :| IsWinnerMap(s, w);
    w
  }

  /** Merging is independent of order and duplication exactly on the sets whose
      top stamps are not tied; a tie is won by whichever op is seen first. */
  lemma OrderIndependentIff(s: set<Op>)
    ensures TopTieFree(s)
            <==> forall xs: seq<Op>, ys: seq<Op> :: SetOf(xs) == s && SetOf(ys) == s ==> Merged(xs) == Merged(ys)
  {
    if TopTieFree(s) {
      forall xs: seq<Op>, ys: seq<Op> | SetOf(xs) == s && SetOf(ys) == s ensures Merged(xs) == Merged(ys) {
        MergedIsWinnerMap(xs);
        MergedIsWinnerMap(ys);
        WinnerMapUnique(s, Merged(xs), Merged(ys));
      }
    } else {
      var a, b :| Wins(s, a) && Wins(s, b) && a.Key() == b.Key() && a != b;
      var xs, ys := TiedOrders(s, a, b);
    }
  }

  lemma TiedOrders(s: set<Op>, a: Op, b: Op) returns (xs: seq<Op>, ys: seq<Op>)
    requires Wins(s, a) && Wins(s, b) && a.Key() == b.Key() && a != b
    ensures SetOf(xs) == s && SetOf(ys) == s && Merged(xs) != Merged(ys)
  {
    var rest := Enumerate(s);
    FirstTopWins(a, rest, s);
    FirstTopWins(b, rest, s);
    xs, ys := [a] + rest, [b] + rest;
  }

  ghost function Enumerate(s: set<Op>): (ops: seq<Op>)
    ensures SetOf(ops) == s
  {
    if s == {} then [] else
      var o :| o in s;
      var rest := Enumerate(s - {o});
      assert SetOf(rest + [o]) == SetOf(rest) + {o};
      rest + [o]
  }

  lemma {:induction false} FirstTopWins(a: Op, rest: seq<Op>, s: set<Op>)
    requires Wins(s, a) && SetOf(rest) <= s
    ensures a.Key() in Merged([a] + rest) && Merged([a] + rest)[a.Key()] == a
  {
    var ops := [a] + rest;
    if rest == [] {
      assert ops == [a] && Fold(map[], ops[..0]) == map[];
    } else {
      assert ops[..|ops| - 1] == [a] + rest[..|rest| - 1];
      FirstTopWins(a, rest[..|rest| - 1], s);
      assert rest[|rest| - 1] in SetOf(rest);
    }
  }

  /** The case the code relies on: tie-free ops merge to the winners of their set. */
  lemma MergedIsWinners(ops: seq<Op>)
    requires TieFree(SetOf(ops))
    ensures Merged(ops) == Winners(SetOf(ops))
  {
    MergedIsWinnerMap(ops);
    TieFreeTop(SetOf(ops));
    WinnerMapUnique(SetOf(ops), Merged(ops), Winners(SetOf(ops)));
  }

  /** Merging a concatenation joins the merges, ties included. */
  lemma {:induction false} FoldAppend(a: seq<Op>, b: seq<Op>)
    ensures Merged(a + b) == Join(Merged(a), Merged(b)) == Fold(Merged(a), b)
  {
    if b == [] {
      assert a + b == a;
    } else {
      var pre, op := b[..|b| - 1], b[|b| - 1];
      assert (a + b)[..|a + b| - 1] == a + pre;
      FoldAppend(a, pre);
      MergedIsWinnerMap(a);
      MergedIsWinnerMap(pre);
      JoinApply(Merged(a), Merged(pre), op);
    }
  }

  lemma JoinApply(a: CellMap, b: CellMap, op: Op)
    ensures Apply(Join(a, b), op) == Join(a, Apply(b, op))
  {
    var c := op.Key();
    var l, r := Apply(Join(a, b), op), Join(a, Apply(b, op));
    if c in a && c in b {
      BeforeStrictTotalOrder(a[c].ts, b[c].ts, op.ts);
      BeforeStrictTotalOrder(b[c].ts, a[c].ts, op.ts);
    }
    assert l.Keys == r.Keys;
  }

  lemma JoinWinnerMap(s: set<Op>, t: set<Op>, w: CellMap, v: CellMap)
    requires IsWinnerMap(s, w) && IsWinnerMap(t, v)
    ensures IsWinnerMap(s + t, Join(w, v))
  {
    var j := Join(w, v);
    assert CellsOf(s + t) == CellsOf(s) + CellsOf(t);
    forall c | c in j ensures j[c].Key() == c && Wins(s + t, j[c]) {
      forall x | x in s + t && x.Key() == c ensures !Before(j[c].ts, x.ts) {
        if c in w && c in v {
          BeforeStrictTotalOrder(x.ts, w[c].ts, v[c].ts);
          BeforeStrictTotalOrder(x.ts, v[c].ts, w[c].ts);
        }
      }
    }
  }

  /** Join is union of the underlying ops, hence commutative, associative and idempotent on them. */
  lemma JoinWinners(s: set<Op>, t: set<Op>)
    requires TieFree(s + t)
    ensures Join(Winners(s), Winners(t)) == Winners(s + t)
  {
    JoinWinnerMap(s, t, Winners(s), Winners(t));
    TieFreeTop(s + t);
    WinnerMapUnique(s + t, Join(Winners(s), Winners(t)), Winners(s + t));
  }

  // ----- The merge loops -----

  type Nested<T> = map<string, map<string, T>>

  predicate NoEmptyDoc<T>(n: Nested<T>)
  {
    forall d :: d in n ==> n[d] != map[]
  }

  /** A doc -> field map that holds exactly the cells of w. */
  ghost predicate Nests(n: Nested<Op>, w: CellMap)
  {
    && (forall d, f :: d in n && f in n[d] <==> Cell(d, f) in w)
    && (forall d, f :: d in n && f in n[d] ==> n[d][f] == w[Cell(d, f)])
  }

  ghost predicate NestsValues(n: Nested<Value>, w: CellMap)
  {
    && (forall d, f :: d in n && f in n[d] <==> Cell(d, f) in w)
    && (forall d, f :: d in n && f in n[d] ==> n[d][f] == w[Cell(d, f)].value)
  }

  lemma NestsApply(n: Nested<Op>, w: CellMap, op: Op, m: Nested<Op>)
    requires Nests(n, w) && NoEmptyDoc(n)
    requires var fields := if op.doc in n then n[op.doc] else map[];
             m == n[op.doc := if op.Key() !in w || Before(w[op.Key()].ts, op.ts) then fields[op.field := op]
                              else fields]
    ensures Nests(m, Apply(w, op)) && NoEmptyDoc(m)
  {
    var v, c := Apply(w, op), op.Key();
    forall d, f
      ensures d in m && f in m[d] <==> Cell(d, f) in v
      ensures d in m && f in m[d] ==> m[d][f] == v[Cell(d, f)]
    {
      assert Cell(d, f) == c <==> d == op.doc && f == op.field;
      assert d in n && f in n[d] <==> Cell(d, f) in w;
    }
    assert op.field in m[op.doc];
  }

  /** The loop updates the nested map of winners in place, then strips it to values. */
  method Merge(ops: seq<Op>) returns (result: Nested<Value>)
    ensures NestsValues(result, Merged(ops)) && NoEmptyDoc(result)
  {
    var wins: Nested<Op> := map[];
    for i := 0 to |ops|
      invariant Nests(wins, Merged(ops[..i])) && NoEmptyDoc(wins)
    {
      var op := ops[i];
      ghost var was, w := wins, Merged(ops[..i]);
      assert ops[..i + 1][..i] == ops[..i];
      assert op.doc in wins && op.field in wins[op.doc] <==> op.Key() in w;
      if op.doc !in wins {
        wins := wins[op.doc := map[]];
      }
      if op.field !in wins[op.doc] || Before(wins[op.doc][op.field].ts, op.ts) {
        wins := wins[op.doc := wins[op.doc][op.field := op]];
      }
      NestsApply(was, w, op, wins);
    }
    assert ops[..|ops|] == ops;
    result := map d | d in wins :: map f | f in wins[d] :: wins[d][f].value;
    forall d | d in result ensures result[d] != map[] {
      var f :| f in wins[d];
      assert f in result[d];
    }
  }
}
