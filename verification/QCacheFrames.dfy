/** What the operations on the workspace document leave alone. */
module QCacheFrames {
  import opened JsonValues
  import opened QCacheSpec
  import opened QCacheRuns

  // ---- what stays where it was ----

  /** The place an operation is about. */
  function Target(op: Op): seq<Tok> {
    match op
    case NewQuadspace(qvid, qsid, _, _) => SpacePath(qvid, qsid)
    case RemoveQuadspace(qvid, qsid) => SpacePath(qvid, qsid)
    case NewWorkspace(c, _, _) => WorkPath(c)
    case RemoveWorkspace(c) => WorkPath(c)
    case AddChart(c, _) => ObjPath(c)
    case IndicatorAdd(c, _, _) => ObjPath(c)
    case IndicatorRemove(c, _, _) => ObjPath(c)
    case RemoveChart(c, _) => ObjPath(c)
    case SetName(c, _) => NamedPath(c) + [Name("title")]
    case SetGrid(c, _) => NamedPath(c) + [Name("grid")]
  }

  /** What is found is what was found before; where nothing was, a null may be now. */
  predicate Kept(before: Option<Json>, after: Option<Json>) {
    after == before || (before == None && after == Some(Null))
  }

  /** All children but the one at `t` are kept. */
  ghost predicate SameBut(v: Json, x: Json, t: Tok) {
    forall u :: u != t ==> Kept(Child(v, u), Child(x, u))
  }

  lemma DivergeOne(t: Tok, r: seq<Tok>)
    requires Diverge([t], r)
    ensures r != [] && r[0] != t
  {
    assert !Diverge([t][1..], r[1..]);
  }

  lemma KeptBelow(v: Json, x: Json, q: seq<Tok>)
    requires q != [] && Kept(Child(v, q[0]), Child(x, q[0]))
    ensures Kept(Resolve(v, q), Resolve(x, q))
  {}

  lemma FrameBelow(doc: Json, p: seq<Tok>, x: Json, t: Tok, r: seq<Tok>)
    requires Resolve(doc, p).Some? && SameBut(Resolve(doc, p).value, x, t)
    requires Diverge(p + [t], r)
    ensures Kept(Resolve(doc, r), Resolve(Update(doc, p, x), r))
  {
    DivergeConcat(p, [t], r);
    if Diverge(p, r) {
      UpdateFrame(doc, p, x, r);
    } else {
      var q := r[|p|..];
      DivergeOne(t, q);
      assert r == p + q;
      ResolveConcat(doc, p, q);
      UpdateBelow(doc, p, x, q);
      KeptBelow(Resolve(doc, p).value, x, q);
    }
  }

  lemma PutSameBut(v: Json, key: string, text: string)
    ensures SameBut(v, SetField(v, key, text), Name(key))
  {
    if v.Obj? {
      forall u | u != Name(key) ensures Child(SetField(v, key, text), u) == Child(v, u) {
        if u.Name? { GetPut(v.pairs, key, Str(text), u.name); }
      }
    }
  }

  lemma PlacedSameBut(v: Json, i: int, x: Json)
    ensures SameBut(v, EditElems(v, s => Placed(s, i, x)), Idx(i))
    ensures v == Null ==> SameBut(v, Arr(Placed([], i, x)), Idx(i))
  {}

  lemma NewSpaceFrame(doc: Json, op: Op, r: seq<Tok>)
    requires op.NewQuadspace? && Fits(false, Doc, doc) && Diverge(Target(op), r)
    ensures Kept(Resolve(doc, r), Resolve(Step(doc, op), r))
  {
    var verses, v, next := doc.elems, op.qvid, Step(doc, op);
    var space := NewSpace(op.qsid, op.title, op.stockpage);
    assert [Idx(v), Idx(op.qsid)][1..] == [Idx(op.qsid)];
    if r[0] != Idx(v) {
      KeptBelow(doc, next, r);
    } else {
      var q := r[1..];
      DivergeOne(Idx(op.qsid), q);
      if 0 <= v {
        var before := if v < |verses| then verses[v] else Null;
        assert 0 <= v < |verses| ==> Fits(false, Verse, verses[v]);
        PlacedSameBut(before, op.qsid, space);
        var after := if before == Null then Arr(Placed([], op.qsid, space))
                     else EditElems(before, s => Placed(s, op.qsid, space));
        assert Child(next, r[0]) == Some(after);
        KeptBelow(before, after, q);
        assert Resolve(Null, q) == None;
      }
    }
  }

  lemma ChartOpFrame(doc: Json, c: Coord, op: Op, r: seq<Tok>)
    requires IsChartOp(op) && op.c == c && Diverge(ObjPath(c), r)
    ensures Resolve(Step(doc, op), r) == Resolve(doc, r)
  {
    ChartStep(doc, c, op);
    var v := Resolve(doc, ObjPath(c));
    if v.Some? { UpdateFrame(doc, ObjPath(c), EditElems(v.value, es => EntriesAfter(es, op)), r); }
  }

  /** No operation changes what is found at any place that parts from its own; where nothing was, nothing
      comes but null padding. */
  lemma StepFrame(doc: Json, op: Op, r: seq<Tok>)
    requires Fits(false, Doc, doc) && Diverge(Target(op), r)
    ensures Kept(Resolve(doc, r), Resolve(Step(doc, op), r))
  {
    match op
    case NewQuadspace(_, _, _, _) => NewSpaceFrame(doc, op, r);
    case RemoveQuadspace(qvid, qsid) =>
      assert SpacePath(qvid, qsid) == SpacesPath(qvid) + [Idx(qsid)];
      var v := Resolve(doc, SpacesPath(qvid));
      if v.Some? {
        FrameBelow(doc, SpacesPath(qvid), EditElems(v.value, s => Replaced(s, qsid, TOMBSTONE)), Idx(qsid), r);
      }
    case NewWorkspace(c, title, rest) =>
      var v := Resolve(doc, WorksPath(c));
      if v.Some? {
        var work := Workspace(CutTitle(title, rest));
        PlacedSameBut(v.value, c.wsid, work);
        FrameBelow(doc, WorksPath(c), EditElems(v.value, s => Placed(s, c.wsid, work)), Idx(c.wsid), r);
      }
    case RemoveWorkspace(c) =>
      var v := Resolve(doc, WorksPath(c));
      if v.Some? {
        FrameBelow(doc, WorksPath(c), EditElems(v.value, s => Replaced(s, c.wsid, TOMBSTONE)), Idx(c.wsid), r);
      }
    case AddChart(c, _) => ChartOpFrame(doc, c, op, r);
    case IndicatorAdd(c, _, _) => ChartOpFrame(doc, c, op, r);
    case IndicatorRemove(c, _, _) => ChartOpFrame(doc, c, op, r);
    case RemoveChart(c, _) => ChartOpFrame(doc, c, op, r);
    case SetName(c, title) =>
      var v := Resolve(doc, NamedPath(c));
      if v.Some? && |title| <= 24 {
        PutSameBut(v.value, "title", title);
        FrameBelow(doc, NamedPath(c), SetField(v.value, "title", title), Name("title"), r);
      }
    case SetGrid(c, grid) =>
      var v := Resolve(doc, NamedPath(c));
      if v.Some? {
        PutSameBut(v.value, "grid", grid);
        FrameBelow(doc, NamedPath(c), SetField(v.value, "grid", grid), Name("grid"), r);
      }
  }

  /** A place no operation of a run is about keeps its value through the run, and stays empty or becomes a
      null if it was empty. */
  lemma {:induction false} RunFrame(doc: Json, ops: seq<Op>, r: seq<Tok>)
    requires Fits(false, Doc, doc)
    requires forall i :: 0 <= i < |ops| ==> Diverge(Target(ops[i]), r)
    ensures Kept(Resolve(doc, r), Resolve(Run(doc, ops), r))
    decreases |ops|
  {
    if ops == [] {
    } else {
      StepFits(false, doc, ops[0]);
      StepFrame(doc, ops[0], r);
      RunFrame(Step(doc, ops[0]), ops[1..], r);
    }
  }

  // ---- coordinate arrays never shrink ----

  /** An array that a coordinate counts in. */
  datatype Counted = Root | SpacesOf(qvid: int) | QuadsOf(qvid: int, qsid: int) | WorksOf(c: Coord)

  function PathOf(w: Counted): seq<Tok> {
    match w
    case Root => []
    case SpacesOf(qvid) => SpacesPath(qvid)
    case QuadsOf(qvid, qsid) => QuadsPath(qvid, qsid)
    case WorksOf(c) => WorksPath(c)
  }

  /** The operation puts something else in the place of the quadspace that holds the array. */
  predicate Overwrites(op: Op, w: Counted) {
    (op.NewQuadspace? || op.RemoveQuadspace?) &&
    match w
    case QuadsOf(qvid, qsid) => op.qvid == qvid && op.qsid == qsid
    case WorksOf(c) => op.qvid == c.qvid && op.qsid == c.qsid
    case _ => false
  }

  ghost predicate Grown(doc: Json, doc': Json, w: Counted) {
    Resolve(doc, PathOf(w)).Some? && Resolve(doc, PathOf(w)).value.Arr? ==>
      var v := Resolve(doc', PathOf(w));
      v.Some? && v.value.Arr? && |v.value.elems| >= |Resolve(doc, PathOf(w)).value.elems|
  }

  /** The same path leads to an array of the same length above the place of an update. */
  lemma {:induction false} UpdateAbove(v: Json, p: seq<Tok>, q: seq<Tok>, x: Json)
    requires Resolve(v, p + q).Some? && q != [] && Resolve(v, p).Some? && Resolve(v, p).value.Arr?
    ensures Resolve(Update(v, p + q, x), p).Some? && Resolve(Update(v, p + q, x), p).value.Arr?
    ensures |Resolve(Update(v, p + q, x), p).value.elems| == |Resolve(v, p).value.elems|
    decreases |p|
  {
    if p == [] {
      assert p + q == q;
    } else {
      assert (p + q)[0] == p[0] && (p + q)[1..] == p[1..] + q;
      var c := Child(v, p[0]).value;
      SetChildGet(v, p[0], Update(c, p[1..] + q, x), p[0]);
      UpdateAbove(c, p[1..], q, x);
    }
  }

  lemma GrownByUpdate(doc: Json, p: seq<Tok>, x: Json, w: Counted)
    requires Resolve(doc, p).Some? && |PathOf(w)| <= |p| && p[..|PathOf(w)|] == PathOf(w)
    requires p == PathOf(w) && Resolve(doc, p).value.Arr? ==> x.Arr? && |x.elems| >= |Resolve(doc, p).value.elems|
    ensures Grown(doc, Update(doc, p, x), w)
  {
    var r := PathOf(w);
    if Resolve(doc, r).Some? && Resolve(doc, r).value.Arr? {
      assert p == r + p[|r|..];
      if p == r {
        UpdateTwice(doc, p, x, x);
      } else {
        UpdateAbove(doc, r, p[|r|..], x);
      }
    }
  }

  lemma {:induction false} PrefixOrApart(p: seq<Tok>, r: seq<Tok>)
    requires |r| <= |p|
    ensures p[..|r|] == r || Diverge(p, r)
    decreases |p|
  {
    if r == [] {
    } else {
      PrefixOrApart(p[1..], r[1..]);
      assert p[..|r|] == [p[0]] + p[1..][..|r| - 1] && r == [r[0]] + r[1..];
    }
  }

  /** Where they differ first, two paths part. */
  lemma {:induction false} ApartAt(p: seq<Tok>, r: seq<Tok>, k: nat)
    requires k < |p| && k < |r| && p[k] != r[k]
    ensures Diverge(p, r)
    decreases |p|
  {
    if p[0] != r[0] {
    } else {
      ApartAt(p[1..], r[1..], k - 1);
    }
  }

  /** An operation is about something apart from the array, or in it or below it. */
  lemma WhereIs(op: Op, w: Counted)
    requires !Overwrites(op, w)
    ensures Diverge(Target(op), PathOf(w)) || (|PathOf(w)| < |Target(op)| && Target(op)[..|PathOf(w)|] == PathOf(w))
  {
    var p, r := Target(op), PathOf(w);
    if |r| == |p| {
      ApartAt(p, r, 2);
    } else if |r| < |p| {
      PrefixOrApart(p, r);
    } else if p[0] != r[0] {
      ApartAt(p, r, 0);
    } else if p[1] != r[1] {
      ApartAt(p, r, 1);
    } else {
      ApartAt(p, r, 2);
    }
  }

  lemma NewSpaceGrows(doc: Json, op: Op, w: Counted)
    requires Fits(false, Doc, doc) && op.NewQuadspace? && (w == Root || w == SpacesOf(op.qvid))
    ensures Grown(doc, Step(doc, op), w)
  {
    if w != Root && Resolve(doc, PathOf(w)).Some? {
      DescendOne(Doc, Idx(op.qvid));
      FitsResolve(false, Doc, doc, PathOf(w));
      assert PathOf(w)[1..] == [];
    }
  }

  lemma GrownSame(doc: Json, w: Counted)
    ensures Grown(doc, doc, w)
  {}

  lemma FieldGrows(doc: Json, c: Coord, key: string, text: string, w: Counted)
    requires |PathOf(w)| <= |NamedPath(c)| && (NamedPath(c) + [Name(key)])[..|PathOf(w)|] == PathOf(w)
    ensures Grown(doc, Edit(doc, NamedPath(c), v => SetField(v, key, text)), w)
  {
    var v := Resolve(doc, NamedPath(c));
    if v.Some? {
      assert NamedPath(c) != PathOf(w);
      GrownByUpdate(doc, NamedPath(c), SetField(v.value, key, text), w);
    }
  }

  lemma EntriesGrow(doc: Json, c: Coord, op: Op, w: Counted)
    requires IsChartOp(op) && op.c == c
    requires |PathOf(w)| < |ObjPath(c)| && ObjPath(c)[..|PathOf(w)|] == PathOf(w)
    ensures Grown(doc, Step(doc, op), w)
  {
    var v := Resolve(doc, ObjPath(c));
    if v.Some? {
      GrownByUpdate(doc, ObjPath(c), EditElems(v.value, es => EntriesAfter(es, op)), w);
    }
  }

  lemma SlotGrows(doc: Json, op: Op, w: Counted)
    requires !op.NewQuadspace? && |PathOf(w)| < |Target(op)| && Target(op)[..|PathOf(w)|] == PathOf(w)
    ensures Grown(doc, Step(doc, op), w)
  {
    hide Grown, Update, Resolve, PathOf;
    GrownSame(doc, w);
    match op
    case RemoveQuadspace(qvid, qsid) =>
      var v := Resolve(doc, SpacesPath(qvid));
      if v.Some? { GrownByUpdate(doc, SpacesPath(qvid), EditElems(v.value, s => Replaced(s, qsid, TOMBSTONE)), w); }
    case NewWorkspace(c, title, rest) =>
      var v := Resolve(doc, WorksPath(c));
      if v.Some? {
        var work := Workspace(CutTitle(title, rest));
        GrownByUpdate(doc, WorksPath(c), EditElems(v.value, s => Placed(s, c.wsid, work)), w);
      }
    case RemoveWorkspace(c) =>
      var v := Resolve(doc, WorksPath(c));
      if v.Some? { GrownByUpdate(doc, WorksPath(c), EditElems(v.value, s => Replaced(s, c.wsid, TOMBSTONE)), w); }
    case SetName(c, title) => FieldGrows(doc, c, "title", title, w);
    case SetGrid(c, grid) => FieldGrows(doc, c, "grid", grid, w);
    case AddChart(c, _) => EntriesGrow(doc, c, op, w);
    case IndicatorAdd(c, _, _) => EntriesGrow(doc, c, op, w);
    case IndicatorRemove(c, _, _) => EntriesGrow(doc, c, op, w);
    case RemoveChart(c, _) => EntriesGrow(doc, c, op, w);
  }

  /** In no array of quadverses, quadspaces, quads or workspaces does an operation make the slots fewer, unless
      it puts something else in the place of the whole quadspace. */
  lemma StepGrows(doc: Json, op: Op, w: Counted)
    requires Fits(false, Doc, doc) && !Overwrites(op, w)
    ensures Grown(doc, Step(doc, op), w)
  {
    var r := PathOf(w);
    WhereIs(op, w);
    if Resolve(doc, r).None? {
    } else if Diverge(Target(op), r) {
      StepFrame(doc, op, r);
    } else if op.NewQuadspace? {
      assert Target(op)[..1] == [Idx(op.qvid)];
      NewSpaceGrows(doc, op, w);
    } else {
      SlotGrows(doc, op, w);
    }
  }

  /** Nor does a run. */
  lemma {:induction false} RunGrows(doc: Json, ops: seq<Op>, w: Counted)
    requires Fits(false, Doc, doc) && forall i :: 0 <= i < |ops| ==> !Overwrites(ops[i], w)
    ensures Grown(doc, Run(doc, ops), w)
    decreases |ops|
  {
    if ops == [] {
    } else {
      StepFits(false, doc, ops[0]);
      StepGrows(doc, ops[0], w);
      RunGrows(Step(doc, ops[0]), ops[1..], w);
    }
  }
}
