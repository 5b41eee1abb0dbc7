/** The operations of src/c/qcache.c on a session's document. */
module QCacheOps {
  import opened JsonValues
  import QCacheEffects
  import opened QCacheSpec
  import opened QCacheRuns

  /** `yyjson_mut_arr_size`, `yyjson_mut_arr_get`, `yyjson_mut_arr_insert` and `yyjson_mut_arr_replace` on
      trees; a negative index, cast to an unsigned one, is past every end. */
  function ArrSize(v: Json): nat { if v.Arr? then |v.elems| else 0 }

  function ArrGet(v: Json, i: int): Option<Json> { Child(v, Idx(i)) }

  function ArrInsert(v: Json, x: Json, i: int): Json {
    if v.Arr? && 0 <= i <= |v.elems| then Arr(v.elems[..i] + [x] + v.elems[i..]) else v
  }

  function ArrReplace(v: Json, i: int, x: Json): Json {
    if v.Arr? && 0 <= i < |v.elems| then Arr(v.elems[i := x]) else v
  }

  /** `for (x = size; x < to; x++) yyjson_mut_arr_add_null(...)` */
  method Pad(v: Json, size: nat, end: int) returns (r: Json)
    requires size == ArrSize(v)
    ensures r == if v.Arr? && end > size then Arr(v.elems + Nulls(end - size)) else v
  {
    r := v;
    var x: int := size;
    while x < end
      invariant size <= x && (end > size ==> x <= end) && (end <= size ==> x == size)
      invariant r == if v.Arr? then Arr(v.elems + Nulls(x - size)) else v
    {
      assert Nulls(x - size) + [Null] == Nulls(x + 1 - size);
      if r.Arr? { r := Arr(r.elems + [Null]); }
      x := x + 1;
    }
  }

  /** Pad with nulls, then insert or replace: how a slot is filled in all three kinds of array. */
  method Place(v: Json, i: int, x: Json) returns (r: Json)
    ensures r == EditElems(v, s => Placed(s, i, x))
  {
    var size := ArrSize(v);
    r := Pad(v, size, i);
    if i >= size || (i == 0 && size == 0) {
      r := ArrInsert(r, x, i);
    } else {
      r := ArrReplace(r, i, x);
    }
    if v.Arr? {
      assert r.elems == Placed(v.elems, i, x);
    }
  }

  function NewQuads(n: nat): seq<Json> { seq(n, _ => NewQuad()) }

  /** The quads of one quadspace become these, if there is such a quadspace. */
  function WithQuads(doc: Json, qvid: int, qsid: int, quads: seq<Json>): Json {
    Edit(doc, QuadsPath(qvid, qsid), _ => Arr(quads))
  }

  /** A new quadspace before it gets its quads. */
  function BareSpace(qsid: int): Json {
    Obj([Pair("title", Str(SpaceTitle(qsid))), Pair("grid", Str("grid50")), Pair("quads", Arr([]))])
  }

  function Attached(doc: Json, qvid: int, qsid: int, space: Json): Json {
    EditElems(doc, s => PlacedSpace(s, qvid, qsid, space))
  }

  lemma VerseIs(doc: Json, qvid: int)
    requires Fits(false, Doc, doc)
    ensures doc.Arr? && (0 <= qvid < |doc.elems| ==> doc.elems[qvid] == Null || doc.elems[qvid].Arr?)
  {
    assert 0 <= qvid < |doc.elems| ==> Fits(false, Verse, doc.elems[qvid]);
  }

  /** What was put into a slot is found there and can be exchanged there; at a negative coordinate it is
      put nowhere. */
  lemma AttachedAt(doc: Json, qvid: int, qsid: int, space: Json, other: Json)
    requires Fits(false, Doc, doc)
    ensures qvid >= 0 && qsid >= 0 ==>
              Resolve(Attached(doc, qvid, qsid, space), SpacePath(qvid, qsid)) == Some(space)
              && Update(Attached(doc, qvid, qsid, space), SpacePath(qvid, qsid), other)
                 == Attached(doc, qvid, qsid, other)
    ensures qvid < 0 || qsid < 0 ==>
              Resolve(Attached(doc, qvid, qsid, space), SpacePath(qvid, qsid)) == None
              && Attached(doc, qvid, qsid, space) == Attached(doc, qvid, qsid, other)
  {
    hide Fits;
    VerseIs(doc, qvid);
    var verses, v := doc.elems, Attached(doc, qvid, qsid, space);
    var spaces := if 0 <= qvid < |verses| && verses[qvid] != Null then verses[qvid].elems else [];
    assert SpacePath(qvid, qsid)[0] == Idx(qvid) && SpacePath(qvid, qsid)[1..] == [Idx(qsid)];
    if qvid >= 0 {
      var a := Arr(Placed(spaces, qsid, space));
      assert Child(v, Idx(qvid)) == Some(a);
      UpdateOne(a, Idx(qsid), other);
      if qsid >= 0 {
        assert Child(a, Idx(qsid)) == Some(space);
        assert Placed(spaces, qsid, space)[qsid := other] == Placed(spaces, qsid, other);
        assert PlacedSpace(verses, qvid, qsid, space)[qvid := Arr(Placed(spaces, qsid, other))]
            == PlacedSpace(verses, qvid, qsid, other);
      }
    }
  }

  lemma BareAttached(doc: Json, qvid: int, qsid: int)
    requires Fits(false, Doc, doc)
    ensures var bare := Attached(doc, qvid, qsid, BareSpace(qsid));
            if qvid >= 0 && qsid >= 0 then
              && Resolve(bare, QuadsPath(qvid, qsid)) == Some(Arr([]))
              && WithQuads(bare, qvid, qsid, []) == bare
              && WithQuads(bare, qvid, qsid, [NewQuad(), NewQuad(), NewQuad(), NewQuad()])
                 == Attached(doc, qvid, qsid, NewSpace(qsid, "", false))
            else
              && Resolve(bare, QuadsPath(qvid, qsid)) == None
              && bare == Attached(doc, qvid, qsid, NewSpace(qsid, "", false))
  {
    var space, whole := BareSpace(qsid), NewSpace(qsid, "", false);
    var bare, path := Attached(doc, qvid, qsid, space), SpacePath(qvid, qsid);
    var four := Arr([NewQuad(), NewQuad(), NewQuad(), NewQuad()]);
    AttachedAt(doc, qvid, qsid, space, whole);
    ResolveConcat(bare, path, [Name("quads")]);
    if qvid >= 0 && qsid >= 0 {
      UpdateOne(space, Name("quads"), four);
      var t, g, q := space.pairs[0], space.pairs[1], space.pairs[2];
      assert space.pairs == [t] + ([g] + ([q] + []));
      GetOne(t, [g] + ([q] + []), "quads");
      GetOne(g, [q] + [], "quads");
      GetOne(q, [], "quads");
      SetFirstIs(space.pairs, "quads", four, 2);
      assert space.pairs[2 := Pair("quads", four)] == whole.pairs;
      UpdateConcat(bare, path, [Name("quads")], four);
      UpdateTwice(bare, QuadsPath(qvid, qsid), four, four);
    }
  }

  lemma InnerWorks(x: nat)
    ensures var more := Arr(NewQuads(x) + [Obj([Pair("workspace", Arr([]))])]);
            && Resolve(more, [Idx(x), Name("workspace")]) == Some(Arr([]))
            && Update(more, [Idx(x), Name("workspace")], Arr([Workspace("NewTab")])) == Arr(NewQuads(x + 1))
  {
    var empty := Obj([Pair("workspace", Arr([]))]);
    var more := Arr(NewQuads(x) + [empty]);
    var path := [Idx(x), Name("workspace")];
    assert path[0] == Idx(x) && path[1..] == [Name("workspace")];
    assert Child(more, Idx(x)) == Some(empty);
    UpdateOne(empty, Name("workspace"), Arr([Workspace("NewTab")]));
    SetFirstIs(empty.pairs, "workspace", Arr([Workspace("NewTab")]), 0);
    assert empty.pairs[0 := Pair("workspace", Arr([Workspace("NewTab")]))] == NewQuad().pairs;
    assert (NewQuads(x) + [empty])[x := NewQuad()] == NewQuads(x + 1);
  }

  /** A round of the loop: the new quad, then its workspace. */
  lemma OneMoreQuad(bare: Json, qvid: int, qsid: int, x: nat)
    ensures var path := QuadsPath(qvid, qsid);
            var c := Coord(qvid, qsid, x, 0);
            var empty := Obj([Pair("workspace", Arr([]))]);
            if Resolve(bare, path).Some? then
              var quads := WithQuads(bare, qvid, qsid, NewQuads(x));
              && Resolve(quads, path) == Some(Arr(NewQuads(x)))
              && Step(Update(quads, path, ArrInsert(Arr(NewQuads(x)), empty, x)), Op.NewWorkspace(c, "NewTab", ""))
                 == WithQuads(bare, qvid, qsid, NewQuads(x + 1))
            else
              Step(bare, Op.NewWorkspace(c, "NewTab", "")) == bare
  {
    var path, c := QuadsPath(qvid, qsid), Coord(qvid, qsid, x, 0);
    var empty := Obj([Pair("workspace", Arr([]))]);
    if Resolve(bare, path).Some? {
      var more := Arr(NewQuads(x) + [empty]);
      assert NewQuads(x)[..x] + [empty] + NewQuads(x)[x..] == NewQuads(x) + [empty];
      UpdateTwice(bare, path, Arr(NewQuads(x)), more);
      UpdateTwice(bare, path, more, Arr(NewQuads(x + 1)));
      var v := Update(bare, path, more);
      InnerWorks(x);
      UpdateConcat(v, path, [Idx(x), Name("workspace")], Arr([Workspace("NewTab")]));
      ResolveConcat(v, path, [Idx(x), Name("workspace")]);
      assert WorksPath(c) == path + [Idx(x), Name("workspace")];
      var work := Workspace(CutTitle("NewTab", ""));
      assert work == Workspace("NewTab") && Placed([], 0, work) == [work];
      assert Step(v, Op.NewWorkspace(c, "NewTab", "")) == Update(v, WorksPath(c), Arr([work]));
    } else {
      ResolveConcat(bare, path, [Idx(x), Name("workspace")]);
    }
  }

  /** The workspace has a chart whose text starts with `ticker`. */
  predicate HasChart(doc: Json, c: Coord, ticker: string) {
    var v := Resolve(doc, ObjPath(c));
    v.Some? && v.value.Arr? && FirstChart(v.value.elems, ticker) < |v.value.elems|
  }

  /** The text of the first such chart. */
  function ChosenChart(doc: Json, c: Coord, ticker: string): string
    requires HasChart(doc, c, ticker)
  {
    var es := Resolve(doc, ObjPath(c)).value.elems;
    ChartText(es[FirstChart(es, ticker)]).value
  }

  /** So there is one exactly if the text of some chart starts with the ticker, and the first one is chosen. */
  lemma ChosenIs(doc: Json, c: Coord, ticker: string, es: seq<Json>)
    requires Fits(false, Doc, doc) && Resolve(doc, ObjPath(c)) == Some(Arr(es))
    ensures HasChart(doc, c, ticker) <==> !QCacheEffects.NoneOf(es, ticker)
    ensures forall k, text :: QCacheEffects.FirstOf(es, ticker, k, text) ==>
                                HasChart(doc, c, ticker) && ChosenChart(doc, c, ticker) == text
  {
    QCacheEffects.EntriesOf(doc, c, es);
    QCacheEffects.NoneOfIs(es, ticker);
    forall k, text | QCacheEffects.FirstOf(es, ticker, k, text)
      ensures HasChart(doc, c, ticker) && ChosenChart(doc, c, ticker) == text
    {
      QCacheEffects.FirstOfIs(es, ticker, k, text);
    }
  }

  /** The slot holds something other than null and the tombstone. */
  predicate Taken(doc: Json, qvid: int, qsid: int) {
    var v := Resolve(doc, SpacePath(qvid, qsid));
    v.Some? && v.value != Null && v.value != TOMBSTONE
  }

  /** Putting back what was found changes nothing. */
  lemma UpdateSame(doc: Json, path: seq<Tok>)
    ensures Resolve(doc, path).Some? ==> Update(doc, path, Resolve(doc, path).value) == doc
  {
    if Resolve(doc, path).Some? { UpdateTwice(doc, path, doc, doc); }
  }

  lemma TakenIs(doc: Json, qvid: int, qsid: int)
    requires Fits(false, Doc, doc)
    ensures Taken(doc, qvid, qsid) <==>
              Child(doc, Idx(qvid)).Some? && Child(Child(doc, Idx(qvid)).value, Idx(qsid)).Some?
              && Child(Child(doc, Idx(qvid)).value, Idx(qsid)).value != Null
              && Child(Child(doc, Idx(qvid)).value, Idx(qsid)).value != Str("-1")
  {
    assert SpacePath(qvid, qsid)[0] == Idx(qvid) && SpacePath(qvid, qsid)[1..] == [Idx(qsid)];
    if Child(doc, Idx(qvid)).Some? { UpdateOne(Child(doc, Idx(qvid)).value, Idx(qsid), Null); }
  }

  class QCache {
    var root: Json

    /** The document is well formed. */
    ghost predicate Valid() reads this {
      Fits(false, Doc, root)
    }

    /** `qcache_create`. */
    constructor (qvid: int, qsid: int, title: string, stockpage: bool)
      ensures root == Created(qvid, qsid, title, stockpage) && Valid()
    {
      root := Arr([]);
      new;
      root := Pad(root, 0, qvid);
      assert root == Arr(Nulls(if qvid > 0 then qvid else 0));
      NullsFit(false, if qvid > 0 then qvid else 0);
      var broadcast := NewQuadspace(qvid, qsid, title, stockpage);
      CreatedFits(false, qvid, qsid, title, stockpage);
    }

    /** `qcache_new_workspace`. */
    method NewWorkspace(c: Coord, title: string, rest: string)
      modifies this
      ensures root == Step(old(root), Op.NewWorkspace(c, title, rest))
      ensures old(Valid()) ==> Valid()
    {
      if Valid() { StepFits(false, root, Op.NewWorkspace(c, title, rest)); }
      var works := Resolve(root, WorksPath(c));
      if works.None? { return; }
      var work := Workspace(CutTitle(title, rest));
      var r := Place(works.value, c.wsid, work);
      root := Update(root, WorksPath(c), r);
    }

    /** `qcache_new_quad`: another quad with no workspaces, in the quads at a path. */
    method AddQuad(path: seq<Tok>, qid: nat)
      requires Resolve(root, path).Some?
      modifies this
      ensures var quad := Obj([Pair("workspace", Arr([]))]);
              root == Update(old(root), path, ArrInsert(Resolve(old(root), path).value, quad, qid))
    {
      root := Update(root, path, ArrInsert(Resolve(root, path).value, Obj([Pair("workspace", Arr([]))]), qid));
    }

    /** `qcache_remove_quadspace`. */
    method RemoveQuadspace(qvid: int, qsid: int)
      requires Valid()
      modifies this
      ensures root == Step(old(root), Op.RemoveQuadspace(qvid, qsid)) && Valid()
    {
      StepFits(false, root, Op.RemoveQuadspace(qvid, qsid));
      var spaces := ArrGet(root, qvid);
      UpdateOne(root, Idx(qvid), if spaces.Some? then ArrReplace(spaces.value, qsid, TOMBSTONE) else Null);
      if spaces.Some? {
        root := ArrReplace(root, qvid, ArrReplace(spaces.value, qsid, TOMBSTONE));
      }
    }

    /** `qcache_remove_workspace`. */
    method RemoveWorkspace(c: Coord)
      requires Valid()
      modifies this
      ensures root == Step(old(root), Op.RemoveWorkspace(c)) && Valid()
    {
      StepFits(false, root, Op.RemoveWorkspace(c));
      var works := Resolve(root, WorksPath(c));
      if works.Some? {
        root := Update(root, WorksPath(c), ArrReplace(works.value, c.wsid, TOMBSTONE));
      }
    }

    /** `qcache_search_chart`: the entry, by its index. */
    method SearchChart(c: Coord, ticker: string) returns (k: Option<nat>)
      requires Valid()
      ensures k.Some? <==> HasChart(root, c, ticker)
      ensures k.Some? ==> k.value == FirstChart(Resolve(root, ObjPath(c)).value.elems, ticker)
    {
      var objects := Resolve(root, ObjPath(c));
      if objects.None? { return None; }
      var idx := 0;
      while idx < ArrSize(objects.value)
        invariant idx <= ArrSize(objects.value)
        invariant objects.value.Arr? ==> forall i :: 0 <= i < idx ==> !ChartStarts(objects.value.elems[i], ticker)
      {
        var text := ChartText(objects.value.elems[idx]);
        if text.Some? && StartsWith(text.value, ticker) {
          FirstChartIs(objects.value.elems, ticker, idx);
          return Some(idx);
        }
        idx := idx + 1;
      }
      return None;
    }

    /** `qcache_addchart`. */
    method AddChart(c: Coord, ticker: string)
      requires Valid()
      modifies this
      ensures root == Step(old(root), Op.AddChart(c, ticker)) && Valid()
    {
      StepFits(false, root, Op.AddChart(c, ticker));
      UpdateSame(root, ObjPath(c));
      var objects := Resolve(root, ObjPath(c));
      if objects.None? { return; }
      var found := SearchChart(c, ticker);
      if found.Some? { return; }
      var chart := Obj(Put([], "chart", Str(ticker)));
      assert Put([], "chart", Str(ticker)) == [Pair("chart", Str(ticker))];
      root := Update(root, ObjPath(c), ArrInsert(objects.value, chart, ArrSize(objects.value)));
      if objects.value.Arr? {
        var es := objects.value.elems;
        assert es[..|es|] + [chart] + es[|es|..] == es + [chart];
      }
    }

    /** `qcache_chart_indicator_add`. */
    method IndicatorAdd(c: Coord, ticker: string, indicator: string) returns (done: bool)
      requires Valid()
      modifies this
      ensures root == Step(old(root), Op.IndicatorAdd(c, ticker, indicator)) && Valid()
      ensures done <==> HasChart(old(root), c, ticker)
    {
      StepFits(false, root, Op.IndicatorAdd(c, ticker, indicator));
      UpdateSame(root, ObjPath(c));
      var chart := SearchChart(c, ticker);
      if chart.None? { return false; }
      var es := Resolve(root, ObjPath(c)).value.elems;
      var text := ChartText(es[chart.value]).value + "&" + indicator;
      root := Update(root, ObjPath(c), Arr(es[chart.value := SetChart(es[chart.value], text)]));
      return true;
    }

    /** `qcache_chart_indicator_remove`. */
    method IndicatorRemove(c: Coord, ticker: string, indicator: string) returns (done: bool)
      requires Valid()
      modifies this
      ensures root == Step(old(root), Op.IndicatorRemove(c, ticker, indicator)) && Valid()
      ensures done <==>
              HasChart(old(root), c, ticker) && CutIndicator(ChosenChart(old(root), c, ticker), indicator).Some?
    {
      StepFits(false, root, Op.IndicatorRemove(c, ticker, indicator));
      UpdateSame(root, ObjPath(c));
      var chart := SearchChart(c, ticker);
      if chart.None? { return false; }
      var es := Resolve(root, ObjPath(c)).value.elems;
      var text := ChartText(es[chart.value]).value;
      var p := StrStr(text, indicator);
      if p.None? { return false; }
      var p2 := StrChr(text[p.value..], '&');
      if p2.None? {
        if p.value > 0 { text := text[..p.value - 1]; }
      } else {
        text := text[..p.value] + text[p.value + p2.value + 1..];
      }
      root := Update(root, ObjPath(c), Arr(es[chart.value := SetChart(es[chart.value], text)]));
      return true;
    }

    /** `qcache_remove_chart`. */
    method RemoveChart(c: Coord, ticker: string)
      requires Valid()
      modifies this
      ensures root == Step(old(root), Op.RemoveChart(c, ticker)) && Valid()
    {
      StepFits(false, root, Op.RemoveChart(c, ticker));
      UpdateSame(root, ObjPath(c));
      var objects := Resolve(root, ObjPath(c));
      if objects.None? { return; }
      var idx := 0;
      while idx < ArrSize(objects.value)
        invariant idx <= ArrSize(objects.value) && root == old(root)
        invariant objects.value.Arr? ==> ExactChart(objects.value.elems, ticker) >= idx
      {
        var es := objects.value.elems;
        var text := ChartText(es[idx]);
        if text == Some(ticker) {
          root := Update(root, ObjPath(c), Arr(es[..idx] + es[idx + 1..]));
          return;
        }
        idx := idx + 1;
      }
    }

    /** `qcache_setname`. */
    method SetName(c: Coord, title: string)
      requires Valid()
      modifies this
      ensures root == Step(old(root), Op.SetName(c, title)) && Valid()
    {
      StepFits(false, root, Op.SetName(c, title));
      if |title| > 24 { return; }
      SetKey(c, "title", title);
    }

    /** `qcache_setgrid`. */
    method SetGrid(c: Coord, grid: string)
      requires Valid()
      modifies this
      ensures root == Step(old(root), Op.SetGrid(c, grid)) && Valid()
    {
      StepFits(false, root, Op.SetGrid(c, grid));
      SetKey(c, "grid", grid);
    }

    method SetKey(c: Coord, key: string, text: string)
      modifies this
      ensures root == Edit(old(root), NamedPath(c), v => SetField(v, key, text))
    {
      var v := Resolve(root, NamedPath(c));
      if v.Some? {
        root := Update(root, NamedPath(c), SetField(v.value, key, text));
      }
    }

    /** `qcache_new_quadspace`; `broadcast` says that the slot held no quadspace before. */
    method NewQuadspace(qvid: int, qsid: int, title: string, stockpage: bool) returns (broadcast: bool)
      requires Valid()
      modifies this
      ensures root == Step(old(root), Op.NewQuadspace(qvid, qsid, title, stockpage)) && Valid()
      ensures broadcast <==> !Taken(old(root), qvid, qsid)
    {
      StepFits(false, root, Op.NewQuadspace(qvid, qsid, title, stockpage));
      TakenIs(root, qvid, qsid);
      ghost var doc := root;
      var verses := ArrSize(root);
      var spaces := ArrGet(root, qvid);
      if (qvid >= verses && qvid != 0) || spaces.None? || spaces.value == Null {
        spaces := Some(Arr([]));
        root := Place(root, qvid, spaces.value);
        broadcast := true;
      } else {
        var space := ArrGet(spaces.value, qsid);
        broadcast := space.None? || space.value == Null || space.value == TOMBSTONE;
      }
      var space := if stockpage then NewSpace(qsid, title, true) else BareSpace(qsid);
      var r := Place(spaces.value, qsid, space);
      root := ArrReplace(root, qvid, r);
      assert root == Attached(doc, qvid, qsid, space);
      if !stockpage {
        AddQuads(qvid, qsid, doc);
      }
    }

    /** The loop that adds the four quads of a new quadspace, each with one workspace. */
    method AddQuads(qvid: int, qsid: int, ghost doc: Json)
      requires Fits(false, Doc, doc) && root == Attached(doc, qvid, qsid, BareSpace(qsid))
      modifies this
      ensures root == Attached(doc, qvid, qsid, NewSpace(qsid, "", false))
    {
      ghost var bare := root;
      BareAttached(doc, qvid, qsid);
      var x := 0;
      assert NewQuads(0) == [];
      while x < 4
        invariant x <= 4
        invariant qvid < 0 || qsid < 0 ==> root == bare
        invariant qvid >= 0 && qsid >= 0 ==> root == WithQuads(bare, qvid, qsid, NewQuads(x))
      {
        OneMoreQuad(bare, qvid, qsid, x);
        if Resolve(root, QuadsPath(qvid, qsid)).Some? {
          AddQuad(QuadsPath(qvid, qsid), x);
        }
        NewWorkspace(Coord(qvid, qsid, x, 0), "NewTab", "");
        x := x + 1;
      }
      assert NewQuads(4) == [NewQuad(), NewQuad(), NewQuad(), NewQuad()];
    }
  }
}
