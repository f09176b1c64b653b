/** The flat snapshot: one "doc.field" key per cell. */
module Flatten {
  import opened Lww
  import opened Hlc

  function FlatKey(c: Cell): string
  {
    c.doc + "." + c.field
  }

  /** How a reader takes a flat key apart: at its first dot. */
  function SplitAtDot(key: string): Cell
  {
    if key == "" then Cell("", "")
    else if key[0] == '.' then Cell("", key[1..])
    else
      var rest := SplitAtDot(key[1..]);
      Cell([key[0]] + rest.doc, rest.field)
  }

  lemma {:induction false} SplitFindsFirstDot(key: string)
    ensures '.' !in SplitAtDot(key).doc
  {
    if key != "" && key[0] != '.' {
      SplitFindsFirstDot(key[1..]);
    }
  }

  /** Splitting inverts flattening exactly for doc ids without a dot, whatever the field path holds. */
  lemma {:induction false} SplitInvertsIff(c: Cell)
    ensures SplitAtDot(FlatKey(c)) == c <==> '.' !in c.doc
  {
    SplitFindsFirstDot(FlatKey(c));
    if '.' !in c.doc {
      SplitInverts(c);
    }
  }

  lemma {:induction false} SplitInverts(c: Cell)
    requires '.' !in c.doc
    ensures SplitAtDot(FlatKey(c)) == c
    decreases |c.doc|
  {
    var key := FlatKey(c);
    if c.doc == "" {
      assert key == "." + c.field;
    } else {
      var tail := Cell(c.doc[1..], c.field);
      assert key[1..] == FlatKey(tail);
      assert forall x :: x in c.doc[1..] ==> x in c.doc;
      SplitInverts(tail);
      assert [c.doc[0]] + c.doc[1..] == c.doc;
    }
  }

  /** flat has a key for every cell of w, and no other key or value. When two cells
      share a key, either of them may have been written last. */
  ghost predicate IsFlat(flat: map<string, Value>, w: CellMap)
  {
    && (forall c :: c in w ==> FlatKey(c) in flat)
    && (forall k :: k in flat ==> exists c :: c in w && FlatKey(c) == k && flat[k] == w[c].value)
  }

  // ----- Which cells share a key -----

  /** The doc id e goes on where d stops, past a dot: a field of d can spell a cell of e. */
  predicate Continues(d: string, e: string)
  {
    d + "." <= e
  }

  /** No doc id continues another one past a dot. */
  ghost predicate KeysApart(docs: set<string>)
  {
    forall d, e :: d in docs && e in docs ==> !Continues(d, e)
  }

  /** Two docs have cells with one key exactly when one doc id continues the other past a dot. */
  lemma SharedKeyIff(d: string, e: string)
    requires d != e
    ensures (exists f, g :: FlatKey(Cell(d, f)) == FlatKey(Cell(e, g))) <==> Continues(d, e) || Continues(e, d)
  {
    if Continues(d, e) {
      ContinuedShares(d, e, "");
    } else if Continues(e, d) {
      ContinuedShares(e, d, "");
    } else {
      forall f, g | FlatKey(Cell(d, f)) == FlatKey(Cell(e, g)) ensures false {
        PrefixesContinue(d, e, FlatKey(Cell(d, f)));
      }
    }
  }

  lemma ContinuedShares(d: string, e: string, g: string)
    requires Continues(d, e)
    ensures FlatKey(Cell(d, e[|d| + 1..] + "." + g)) == FlatKey(Cell(e, g))
  {
    assert e == (d + ".") + e[|d| + 1..];
  }

  lemma PrefixesContinue(d: string, e: string, key: string)
    requires Continues(d, key) && Continues(e, key) && d != e
    ensures Continues(d, e) || Continues(e, d)
  {
    assert d == key[..|d|] && e == key[..|e|];
    if |d| < |e| {
      assert (d + ".") == key[..|d| + 1] == e[..|d| + 1];
    } else {
      assert (e + ".") == key[..|e| + 1] == d[..|e| + 1];
    }
  }

  /** A cell is alone on its key exactly when neither its doc id nor its field path has a dot. */
  lemma AloneIff(c: Cell)
    ensures (forall x :: FlatKey(x) == FlatKey(c) ==> x == c) <==> '.' !in c.doc && '.' !in c.field
  {
    if '.' in c.doc {
      var i :| 0 <= i < |c.doc| && c.doc[i] == '.';
      assert c.doc == c.doc[..i] + "." + c.doc[i + 1..];
      ContinuedShares(c.doc[..i], c.doc, c.field);
    } else if '.' in c.field {
      var i :| 0 <= i < |c.field| && c.field[i] == '.';
      assert c.field == c.field[..i] + "." + c.field[i + 1..];
      assert FlatKey(Cell(c.doc + "." + c.field[..i], c.field[i + 1..])) == FlatKey(c);
    } else {
      forall x | FlatKey(x) == FlatKey(c) ensures x == c {
        SameKeyDots(c, x);
      }
    }
  }

  lemma SameKeyDots(c: Cell, x: Cell)
    requires FlatKey(x) == FlatKey(c)
    ensures x == c || '.' in c.doc || '.' in c.field
  {
    var key := FlatKey(c);
    if x.doc == c.doc {
      assert x.field == key[|c.doc| + 1..] == c.field;
    } else if |x.doc| < |c.doc| {
      assert c.doc[|x.doc|] == key[|x.doc|] == '.';
    } else {
      assert c.field == key[|c.doc| + 1..];
      assert |c.doc| < |x.doc| by {
        assert x.doc == key[..|x.doc|] && c.doc == key[..|c.doc|];
      }
      assert c.field[|x.doc| - |c.doc| - 1] == key[|x.doc|] == '.';
    }
  }

  // ----- Whether a flat view loses cells -----

  function DocsOf(w: CellMap): set<string>
  {
    set c | c in w :: c.doc
  }

  /** Every cell has its own key, with its own value. */
  ghost predicate Lossless(flat: map<string, Value>, w: CellMap)
  {
    && (forall c :: c in w ==> FlatKey(c) in flat && flat[FlatKey(c)] == w[c].value)
    && |flat| == |w|
  }

  /** Flattening loses nothing, whatever the state over these docs, exactly when no doc id continues another
      past a dot; and then the doc id of a key is the only one among them that the key continues. */
  lemma LosslessIff(docs: set<string>)
    ensures KeysApart(docs)
            <==> forall w: CellMap, flat :: DocsOf(w) <= docs && IsFlat(flat, w) ==> Lossless(flat, w)
    ensures KeysApart(docs) ==>
              forall c: Cell, d :: c.doc in docs && d in docs && Continues(d, FlatKey(c)) ==> d == c.doc
  {
    if KeysApart(docs) {
      forall w: CellMap, flat | DocsOf(w) <= docs && IsFlat(flat, w) ensures Lossless(flat, w) {
        FlatRoundTrip(flat, w);
      }
      forall c: Cell, d | c.doc in docs && d in docs && Continues(d, FlatKey(c)) ensures d == c.doc {
        if d != c.doc {
          PrefixesContinue(d, c.doc, FlatKey(c));
        }
      }
    } else {
      var d, e :| d in docs && e in docs && Continues(d, e);
      var w, flat := CellLost(d, e);
      assert DocsOf(w) <= docs && IsFlat(flat, w);
    }
  }

  /** A state of two cells, one of which is lost. */
  lemma CellLost(d: string, e: string) returns (w: CellMap, flat: map<string, Value>)
    requires Continues(d, e)
    ensures DocsOf(w) == {d, e} && IsFlat(flat, w) && !Lossless(flat, w)
  {
    var x, y := Cell(d, e[|d| + 1..] + "."), Cell(e, "");
    ContinuedShares(d, e, "");
    assert e[|d| + 1..] + "." + "" == x.field;
    w := map[x := Op("1", x.doc, x.field, "1", ZERO, ""), y := Op("2", y.doc, y.field, "2", ZERO, "")];
    flat := map[FlatKey(x) := "1"];
    assert w[x].value == "1";
    assert x.doc == d && y.doc == e;
    assert x != y && w[y].value != flat[FlatKey(y)];
  }

  lemma FlatRoundTrip(flat: map<string, Value>, w: CellMap)
    requires IsFlat(flat, w) && KeysApart(DocsOf(w))
    ensures Lossless(flat, w)
  {
    forall c, x | c in w && x in w && FlatKey(c) == FlatKey(x) ensures c == x {
      ApartKeys(DocsOf(w), c, x);
    }
    assert flat.Keys == (set c | c in w.Keys :: FlatKey(c));
    KeyPerCell(w.Keys);
    assert |flat| == |flat.Keys| && |w| == |w.Keys|;
  }

  lemma ApartKeys(docs: set<string>, c: Cell, x: Cell)
    requires KeysApart(docs) && c.doc in docs && x.doc in docs && FlatKey(c) == FlatKey(x)
    ensures c == x
  {
    if c.doc != x.doc {
      PrefixesContinue(c.doc, x.doc, FlatKey(c));
    } else {
      assert c.field == FlatKey(c)[|c.doc| + 1..] == x.field;
    }
  }

  lemma {:induction false} KeyPerCell(cells: set<Cell>)
    requires forall c, x :: c in cells && x in cells && FlatKey(c) == FlatKey(x) ==> c == x
    ensures |set c | c in cells :: FlatKey(c)| == |cells|
  {
    if cells != {} {
      var c :| c in cells;
      KeyPerCell(cells - {c});
      assert (set x | x in cells :: FlatKey(x)) == (set x | x in cells - {c} :: FlatKey(x)) + {FlatKey(c)};
    }
  }

  /** With dot-free doc ids a reader who splits every key at its first dot has the nested view back. */
  lemma FirstDotRecovers(flat: map<string, Value>, w: CellMap)
    requires IsFlat(flat, w) && forall d :: d in DocsOf(w) ==> '.' !in d
    ensures Lossless(flat, w)
    ensures forall k :: k in flat ==> SplitAtDot(k) in w && w[SplitAtDot(k)].value == flat[k]
    ensures forall c :: c in w ==> SplitAtDot(FlatKey(c)) == c
  {
    forall d, e | d in DocsOf(w) && Continues(d, e) ensures e !in DocsOf(w) {
      assert e[|d|] == '.';
    }
    FlatRoundTrip(flat, w);
    forall c | c in w ensures SplitAtDot(FlatKey(c)) == c {
      SplitInvertsIff(c);
    }
  }

  // ----- The loops -----

  ghost predicate FlatSoFar(flat: map<string, Value>, w: CellMap, done: set<Cell>)
  {
    && (forall c :: c in done ==> FlatKey(c) in flat)
    && (forall k :: k in flat ==> exists c :: c in w && FlatKey(c) == k && flat[k] == w[c].value)
  }

  lemma FlatAdd(flat: map<string, Value>, w: CellMap, done: set<Cell>, c: Cell)
    requires FlatSoFar(flat, w, done) && c in w
    ensures FlatSoFar(flat[FlatKey(c) := w[c].value], w, done + {c})
  {
  }

  /** Every cell still to be written is in a doc, or in a field of this doc, still to be visited. */
  ghost predicate Covered(w: CellMap, done: set<Cell>, docs: set<string>, doc: string, fields: set<string>)
  {
    forall c :: c in w && c !in done ==> c.doc in docs || (c.doc == doc && c.field in fields)
  }

  lemma NestsAt(nested: Nested<Value>, w: CellMap, doc: string)
    requires NestsValues(nested, w) && doc in nested
    ensures forall f :: f in nested[doc] <==> Cell(doc, f) in w
    ensures forall f :: f in nested[doc] ==> nested[doc][f] == w[Cell(doc, f)].value
  {
  }

  lemma NothingLeft(nested: Nested<Value>, w: CellMap)
    requires NestsValues(nested, w)
    ensures Covered(w, {}, nested.Keys, "", {})
  {
    forall c | c in w ensures c.doc in nested {
      assert c == Cell(c.doc, c.field);
    }
  }

  /** The nested loops over the merged view; maps are ranged over in any order. */
  method FlattenDocs(nested: Nested<Value>, ghost w: CellMap) returns (flat: map<string, Value>)
    requires NestsValues(nested, w)
    ensures IsFlat(flat, w)
  {
    flat := map[];
    var docs := nested.Keys;
    ghost var done: set<Cell> := {};
    NothingLeft(nested, w);
    while docs != {}
      invariant docs <= nested.Keys
      invariant Covered(w, done, docs, "", {})
      invariant FlatSoFar(flat, w, done)
      decreases docs
    {
      var doc :| doc in docs;
      NestsAt(nested, w, doc);
      flat, done := FlattenFields(doc, nested[doc], docs, w, flat, done);
      docs := docs - {doc};
    }
  }

  /** The inner loop. */
  method FlattenFields(doc: string, content: map<string, Value>, ghost docs: set<string>, ghost w: CellMap,
                       flat0: map<string, Value>, ghost done0: set<Cell>)
    returns (flat: map<string, Value>, ghost done: set<Cell>)
    requires forall f :: f in content <==> Cell(doc, f) in w
    requires forall f :: f in content ==> content[f] == w[Cell(doc, f)].value
    requires Covered(w, done0, docs, "", {}) && FlatSoFar(flat0, w, done0)
    ensures Covered(w, done, docs - {doc}, "", {}) && FlatSoFar(flat, w, done)
  {
    flat, done := flat0, done0;
    var fields := content.Keys;
    assert Covered(w, done, docs - {doc}, doc, fields) by {
      forall c | c in w && c.doc == doc ensures c.field in fields { assert c == Cell(doc, c.field); }
    }
    while fields != {}
      invariant fields <= content.Keys
      invariant Covered(w, done, docs - {doc}, doc, fields)
      invariant FlatSoFar(flat, w, done)
      decreases fields
    {
      var field :| field in fields;
      ghost var c := Cell(doc, field);
      FlatAdd(flat, w, done, c);
      flat := flat[doc + "." + field := content[field]];
      done := done + {c};
      fields := fields - {field};
    }
  }
}
