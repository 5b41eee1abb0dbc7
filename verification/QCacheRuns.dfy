/** What holds over every run of operations on the workspace document. */
module QCacheRuns {
  import opened JsonValues
  import opened QCacheSpec
  import opened Sequences

  // ---- depth along a path ----

  function Descend(lv: Level, path: seq<Tok>): Option<Level>
    decreases |path|
  {
    if path == [] then Some(lv)
    else
      var next := Within(lv, path[0]);
      if next.Some? then Descend(next.value, path[1..]) else None
  }

  lemma {:induction false} DescendConcat(lv: Level, p: seq<Tok>, q: seq<Tok>)
    ensures Descend(lv, p + q) == if Descend(lv, p).Some? then Descend(Descend(lv, p).value, q) else None
    decreases |p|
  {
    if p == [] {
      assert p + q == q;
    } else {
      assert (p + q)[0] == p[0] && (p + q)[1..] == p[1..] + q;
      var next := Within(lv, p[0]);
      if next.Some? { DescendConcat(next.value, p[1..], q); }
    }
  }

  lemma DescendOne(lv: Level, t: Tok)
    ensures Descend(lv, [t]) == Within(lv, t)
  {
    assert [t][1..] == [];
  }

  lemma Levels(c: Coord)
    ensures Descend(Doc, SpacesPath(c.qvid)) == Some(Verse)
    ensures Descend(Doc, SpacePath(c.qvid, c.qsid)) == Some(Space)
    ensures Descend(Doc, WorksPath(c)) == Some(Works)
    ensures Descend(Doc, WorkPath(c)) == Some(Work)
    ensures Descend(Doc, ObjPath(c)) == Some(Entries)
  {
    DescendOne(Doc, Idx(c.qvid));
    DescendOne(Verse, Idx(c.qsid));
    assert SpacePath(c.qvid, c.qsid) == SpacesPath(c.qvid) + [Idx(c.qsid)];
    DescendConcat(Doc, SpacesPath(c.qvid), [Idx(c.qsid)]);
    DescendOne(Space, Name("quads"));
    DescendConcat(Doc, SpacePath(c.qvid, c.qsid), [Name("quads")]);
    DescendOne(Quads, Idx(c.qid));
    DescendOne(Quad, Name("workspace"));
    assert [Idx(c.qid), Name("workspace")] == [Idx(c.qid)] + [Name("workspace")];
    DescendConcat(Quads, [Idx(c.qid)], [Name("workspace")]);
    DescendConcat(Doc, QuadsPath(c.qvid, c.qsid), [Idx(c.qid), Name("workspace")]);
    DescendOne(Works, Idx(c.wsid));
    DescendConcat(Doc, WorksPath(c), [Idx(c.wsid)]);
    DescendOne(Work, Name("obj"));
    DescendConcat(Doc, WorkPath(c), [Name("obj")]);
  }

  // ---- well-formedness below a path ----

  lemma FitsChild(strict: bool, lv: Level, v: Json, t: Tok)
    requires Fits(strict, lv, v) && Child(v, t).Some? && Within(lv, t).Some?
    ensures Fits(strict, Within(lv, t).value, Child(v, t).value)
  {
    if t.Name? {
      var i := GetMember(v.pairs, t.name);
      assert FieldFits(strict, lv, v.pairs[i]);
    }
  }

  /** The key that is set was there, so no key comes or goes. */
  lemma SameKeys(pairs: seq<Pair>, key: string, x: Json, other: string)
    requires Get(pairs, key).Some?
    ensures Get(SetFirst(pairs, key, x), other).Some? <==> Get(pairs, other).Some?
  {
    SetFirstGet(pairs, key, x, other);
  }

  lemma FieldsSet(strict: bool, lv: Level, pairs: seq<Pair>, key: string, x: Json)
    requires FieldsFit(strict, lv, pairs) && Get(pairs, key).Some? && Within(lv, Name(key)).Some?
    requires Fits(strict, Within(lv, Name(key)).value, x)
    ensures FieldsFit(strict, lv, SetFirst(pairs, key, x))
  {
    var i := GetMember(pairs, key);
    SetFirstIs(pairs, key, x, i);
    assert FieldFits(strict, lv, pairs[i]);
    var s := pairs[i := Pair(key, x)];
    forall j | 0 <= j < |s| ensures FieldFits(strict, lv, s[j]) {
      if j != i { assert s[j] == pairs[j] && FieldFits(strict, lv, pairs[j]); }
    }
    assert forall j, k :: 0 <= j < k < |s| ==> s[j].key == pairs[j].key && s[k].key == pairs[k].key;
  }

  lemma FitsSetChild(strict: bool, lv: Level, v: Json, t: Tok, x: Json)
    requires Fits(strict, lv, v) && Child(v, t).Some? && Within(lv, t).Some?
    requires Fits(strict, Within(lv, t).value, x)
    ensures Fits(strict, lv, SetChild(v, t, x))
  {
    if t.Name? {
      FieldsSet(strict, lv, v.pairs, t.name, x);
      SameKeys(v.pairs, t.name, x, "title");
      SameKeys(v.pairs, t.name, x, "grid");
      SameKeys(v.pairs, t.name, x, "sp");
      SameKeys(v.pairs, t.name, x, "quads");
      SameKeys(v.pairs, t.name, x, "obj");
      hide FieldsFit;
    } else {
      var s := v.elems[t.i := x];
      forall j | 0 <= j < |s| ensures Fits(strict, Within(lv, t).value, s[j]) {
        if j != t.i { assert s[j] == v.elems[j]; }
      }
    }
  }

  lemma {:induction false} FitsResolve(strict: bool, lv: Level, v: Json, path: seq<Tok>)
    requires Fits(strict, lv, v) && Resolve(v, path).Some? && Descend(lv, path).Some?
    ensures Fits(strict, Descend(lv, path).value, Resolve(v, path).value)
    decreases |path|
  {
    if path == [] {
    } else {
      FitsChild(strict, lv, v, path[0]);
      FitsResolve(strict, Within(lv, path[0]).value, Child(v, path[0]).value, path[1..]);
    }
  }

  /** A document stays well formed when what a path leads to is exchanged for something that fits there. */
  lemma {:induction false} FitsUpdate(strict: bool, lv: Level, v: Json, path: seq<Tok>, x: Json)
    requires Fits(strict, lv, v) && Resolve(v, path).Some? && Descend(lv, path).Some?
    requires Fits(strict, Descend(lv, path).value, x)
    ensures Fits(strict, lv, Update(v, path, x))
    decreases |path|
  {
    if path == [] {
    } else {
      var c := Child(v, path[0]).value;
      FitsChild(strict, lv, v, path[0]);
      FitsUpdate(strict, Within(lv, path[0]).value, c, path[1..], x);
      FitsSetChild(strict, lv, v, path[0], Update(c, path[1..], x));
    }
  }

  // ---- what the operations build fits ----

  lemma GetOne(p: Pair, more: seq<Pair>, key: string)
    ensures Get([p] + more, key) == if p.key == key then Some(p.val) else Get(more, key)
  {
    assert ([p] + more)[1..] == more;
  }

  lemma WorkspaceFits(strict: bool, title: string)
    ensures Fits(strict, Work, Workspace(title))
  {
    var t, g, o := Pair("title", Str(title)), Pair("grid", Str("grid100")), Pair("obj", Arr([]));
    assert Workspace(title).pairs == [t] + ([g] + ([o] + []));
    forall key ensures Get(Workspace(title).pairs, key) ==
      if key == "title" then Some(t.val)
      else if key == "grid" then Some(g.val)
      else if key == "obj" then Some(o.val) else None
    {
      GetOne(t, [g] + ([o] + []), key);
      GetOne(g, [o] + [], key);
      GetOne(o, [], key);
    }
    assert FieldFits(strict, Work, o);
  }

  lemma QuadFits(strict: bool)
    ensures Fits(strict, Quad, NewQuad())
  {
    WorkspaceFits(strict, "NewTab");
    assert Fits(strict, Works, Arr([Workspace("NewTab")]));
    assert FieldFits(strict, Quad, NewQuad().pairs[0]);
  }

  lemma CompleteSpace(t: Pair, g: Pair, more: seq<Pair>)
    requires t.key == "title"
    requires (g.key == "sp" && more == []) || (g.key == "grid" && |more| == 1 && more[0].key == "quads")
    ensures Complete([t] + ([g] + more))
  {
    forall key ensures Get([t] + ([g] + more), key) ==
      if t.key == key then Some(t.val) else if g.key == key then Some(g.val) else Get(more, key)
    {
      GetOne(t, [g] + more, key);
      GetOne(g, more, key);
    }
    if more != [] {
      forall key ensures Get(more, key) == if more[0].key == key then Some(more[0].val) else None {
        GetOne(more[0], [], key);
        assert [more[0]] + [] == more;
      }
    }
  }

  lemma SpaceFits(strict: bool, qsid: int, title: string, stockpage: bool)
    ensures Fits(strict, Space, NewSpace(qsid, title, stockpage))
  {
    QuadFits(strict);
    var quads := Arr([NewQuad(), NewQuad(), NewQuad(), NewQuad()]);
    assert Fits(strict, Quads, quads);
    var s := NewSpace(qsid, title, stockpage).pairs;
    CompleteSpace(s[0], s[1], if stockpage then [] else s[2..]);
    assert s == [s[0]] + ([s[1]] + (if stockpage then [] else s[2..]));
    forall i | 0 <= i < |s| ensures FieldFits(strict, Space, s[i]) {}
  }

  lemma PlacedFits(strict: bool, lv: Level, s: seq<Json>, i: int, x: Json)
    requires ElemsFit(strict, lv, s) && Fits(strict, lv, x) && Fits(strict, lv, Null)
    ensures ElemsFit(strict, lv, Placed(s, i, x))
  {
    var t := Placed(s, i, x);
    forall j | 0 <= j < |t| ensures Fits(strict, lv, t[j]) {
      assert t[j] == x || t[j] == Null || (j < |s| && t[j] == s[j]);
    }
  }

  lemma PlacedSpaceFits(strict: bool, verses: seq<Json>, qvid: int, qsid: int, space: Json)
    requires ElemsFit(strict, Verse, verses) && Fits(strict, Space, space)
    ensures ElemsFit(strict, Verse, PlacedSpace(verses, qvid, qsid, space))
  {
    PlacedFits(strict, Space, [], qsid, space);
    if 0 <= qvid < |verses| && verses[qvid] != Null {
      assert Fits(strict, Verse, verses[qvid]);
      PlacedFits(strict, Space, verses[qvid].elems, qsid, space);
      var t := PlacedSpace(verses, qvid, qsid, space);
      forall j | 0 <= j < |t| ensures Fits(strict, Verse, t[j]) {
        if j != qvid { assert t[j] == verses[j]; }
      }
    } else {
      PlacedFits(strict, Verse, verses, qvid, Arr(Placed([], qsid, space)));
    }
  }

  lemma FieldSet(strict: bool, lv: Level, v: Json, key: string, text: string)
    requires lv == Space || lv == Work
    requires Fits(strict, lv, v) && (key == "title" || key == "grid")
    ensures Fits(strict, lv, SetField(v, key, text))
  {
    if v.Obj? {
      var s := Put(v.pairs, key, Str(text));
      PutDistinct(v.pairs, key, Str(text));
      forall i | 0 <= i < |s| ensures FieldFits(strict, lv, s[i]) {
        if i < |s| - 1 {
          var j := OthersFrom(v.pairs, key, i);
          assert FieldFits(strict, lv, v.pairs[j]);
        }
      }
      GetPut(v.pairs, key, Str(text), "title");
      GetPut(v.pairs, key, Str(text), "grid");
      GetPut(v.pairs, key, Str(text), "sp");
      GetPut(v.pairs, key, Str(text), "quads");
      GetPut(v.pairs, key, Str(text), "obj");
      hide Put, Get, FieldFits;
    }
  }

  // ---- charts ----

  lemma {:induction false} BasePrefix(text: string)
    ensures Base(text) <= text && '&' !in Base(text)
  {
    if text == "" || text[0] == '&' {
    } else {
      BasePrefix(text[1..]);
      assert text == [text[0]] + text[1..];
    }
  }

  lemma {:induction false} BaseOfPlain(text: string)
    requires '&' !in text
    ensures Base(text) == text
  {
    if text == "" {
    } else {
      BaseOfPlain(text[1..]);
      assert text == [text[0]] + text[1..];
    }
  }

  lemma {:induction false} BaseKept(text: string, more: string)
    ensures Base(text + "&" + more) == Base(text)
  {
    if text == "" {
      assert (text + "&" + more)[0] == '&';
    } else {
      assert (text + "&" + more)[1..] == text[1..] + "&" + more;
      BaseKept(text[1..], more);
    }
  }

  /** An entry that is a chart is nothing else. */
  lemma OnlyChart(strict: bool, e: Json, text: string)
    requires Fits(strict, Entry, e) && ChartText(e).Some?
    ensures e == Chart(ChartText(e).value)
    ensures SetChart(e, text) == Chart(text)
    ensures ChartText(SetChart(e, text)) == Some(text) && Fits(strict, Entry, SetChart(e, text))
  {
    var i := GetMember(e.pairs, "chart");
    assert e.pairs == [e.pairs[0]];
    assert Others(e.pairs, "chart") == [] by {
      assert Others(e.pairs[1..], "chart") == [];
    }
    var s := [Pair("chart", Str(text))];
    assert [] + s == s;
    GetOne(s[0], [], "chart");
    assert [s[0]] + [] == s;
    assert FieldFits(strict, Entry, s[0]);
  }

  /** An entry other than the one at `k` is a chart of this ticker. */
  predicate OtherHas(es: seq<Json>, k: int, base: string) {
    exists i :: 0 <= i < |es| && i != k && ChartText(es[i]).Some? && Base(ChartText(es[i]).value) == base
  }

  lemma DistinctAfter(es: seq<Json>, t: seq<Json>, k: nat, text: string)
    requires BasesDistinct(es) && |t| == |es| && k < |es| && ChartText(t[k]) == Some(text)
    requires forall i :: 0 <= i < |es| && i != k ==> t[i] == es[i]
    ensures BasesDistinct(t) <==> !OtherHas(es, k, Base(text))
  {
    hide Base, ChartText;
    if i :| 0 <= i < |es| && i != k && ChartText(es[i]).Some? && Base(ChartText(es[i]).value) == Base(text) {
      assert t[i] == es[i];
    }
  }

  /** A chart can get another text exactly if no other chart has the ticker of that text. */
  lemma SetChartFits(strict: bool, es: seq<Json>, k: nat, text: string)
    requires Fits(strict, Entries, Arr(es)) && k < |es| && ChartText(es[k]).Some?
    ensures Fits(strict, Entries, Arr(es[k := SetChart(es[k], text)])) <==> strict ==> !OtherHas(es, k, Base(text))
  {
    assert ElemsFit(strict, Entry, es);
    OnlyChart(strict, es[k], text);
    var t := es[k := SetChart(es[k], text)];
    forall j | 0 <= j < |t| ensures Fits(strict, Entry, t[j]) {
      if j != k { assert t[j] == es[j]; }
    }
    assert forall i :: 0 <= i < |es| && i != k ==> t[i] == es[i];
    hide Fits, Base, ChartText, SetChart;
    if BasesDistinct(es) { DistinctAfter(es, t, k, text); }
  }

  lemma WithChartFits(strict: bool, es: seq<Json>, ticker: string)
    requires Fits(strict, Entries, Arr(es)) && FirstChart(es, ticker) == |es|
    ensures Fits(strict, Entries, Arr(WithChart(es, ticker))) <==> strict ==> !OtherHas(es, |es|, Base(ticker))
  {
    var e := Chart(ticker);
    GetOne(e.pairs[0], [], "chart");
    assert [e.pairs[0]] + [] == e.pairs;
    assert FieldFits(strict, Entry, e.pairs[0]);
    assert ElemsFit(strict, Entry, es);
    var t := es + [e];
    forall j | 0 <= j < |t| ensures Fits(strict, Entry, t[j]) {
      if j < |es| { assert t[j] == es[j]; }
    }
    assert ChartText(t[|es|]) == Some(ticker);
    hide Base, ChartText;
    assert forall i :: 0 <= i < |es| ==> t[i] == es[i];
    if i :| 0 <= i < |es| && ChartText(es[i]).Some? && Base(ChartText(es[i]).value) == Base(ticker) {
      assert t[i] == es[i];
    }
  }

  lemma WithoutChartFits(strict: bool, es: seq<Json>, ticker: string)
    requires Fits(strict, Entries, Arr(es))
    ensures Fits(strict, Entries, Arr(WithoutChart(es, ticker)))
  {
    var k, t := ExactChart(es, ticker), WithoutChart(es, ticker);
    assert ElemsFit(strict, Entry, es);
    assert forall j :: 0 <= j < |t| ==> t[j] == es[if j < k then j else j + 1];
    if strict {
      forall i, j | 0 <= i < j < |t| && ChartText(t[i]).Some? && ChartText(t[j]).Some?
        ensures Base(ChartText(t[i]).value) != Base(ChartText(t[j]).value)
      {
        var i', j' := if i < k then i else i + 1, if j < k then j else j + 1;
        assert t[i] == es[i'] && t[j] == es[j'] && i' < j';
      }
    }
  }

  // ---- every operation ----

  predicate IsChartOp(op: Op) {
    op.AddChart? || op.IndicatorAdd? || op.IndicatorRemove? || op.RemoveChart?
  }

  /** The operation gives no chart the ticker of another one: a chart that is added has a new ticker, and
      what an indicator's removal leaves of a chart's text has the ticker of no other chart. */
  predicate CleanHere(es: seq<Json>, op: Op)
    requires IsChartOp(op)
  {
    match op
    case AddChart(_, ticker) =>
      FirstChart(es, ticker) < |es| || !OtherHas(es, |es|, Base(ticker))
    case IndicatorRemove(_, ticker, indicator) =>
      var k := FirstChart(es, ticker);
      k == |es| ||
      var text := CutIndicator(ChartText(es[k]).value, indicator);
      text.None? || !OtherHas(es, k, Base(text.value))
    case _ => true
  }

  /** The entries of a workspace, none if there is no such workspace. */
  function EntriesAt(doc: Json, c: Coord): seq<Json> {
    var v := Resolve(doc, ObjPath(c));
    if v.Some? && v.value.Arr? then v.value.elems else []
  }

  predicate Clean(doc: Json, op: Op) {
    IsChartOp(op) ==> CleanHere(EntriesAt(doc, op.c), op)
  }

  lemma ReplacedFits(strict: bool, lv: Level, s: seq<Json>, i: int)
    requires ElemsFit(strict, lv, s) && (lv == Space || lv == Work)
    ensures ElemsFit(strict, lv, Replaced(s, i, TOMBSTONE))
  {}

  lemma SlotFits(strict: bool, doc: Json, path: seq<Tok>, op: Op)
    requires Fits(strict, Doc, doc)
    requires op.RemoveQuadspace? || op.NewWorkspace? || op.RemoveWorkspace?
    requires op.RemoveQuadspace? ==> path == SpacesPath(op.qvid) && Descend(Doc, path) == Some(Verse)
    requires !op.RemoveQuadspace? ==> path == WorksPath(op.c) && Descend(Doc, path) == Some(Works)
    ensures Fits(strict, Doc, Step(doc, op))
  {
    if Resolve(doc, path).Some? {
      FitsResolve(strict, Doc, doc, path);
      var v := Resolve(doc, path).value;
      if v.Arr? {
        match op {
          case NewWorkspace(c, title, rest) =>
            WorkspaceFits(strict, CutTitle(title, rest));
            PlacedFits(strict, Work, v.elems, c.wsid, Workspace(CutTitle(title, rest)));
            FitsUpdate(strict, Doc, doc, path, Arr(Placed(v.elems, c.wsid, Workspace(CutTitle(title, rest)))));
          case RemoveWorkspace(c) =>
            ReplacedFits(strict, Work, v.elems, c.wsid);
            FitsUpdate(strict, Doc, doc, path, Arr(Replaced(v.elems, c.wsid, TOMBSTONE)));
          case RemoveQuadspace(qvid, qsid) =>
            ReplacedFits(strict, Space, v.elems, qsid);
            FitsUpdate(strict, Doc, doc, path, Arr(Replaced(v.elems, qsid, TOMBSTONE)));
        }
      } else {
        FitsUpdate(strict, Doc, doc, path, v);
      }
    }
  }

  /** The entries after a chart operation. */
  function EntriesAfter(es: seq<Json>, op: Op): seq<Json>
    requires IsChartOp(op)
  {
    match op
    case AddChart(_, ticker) => WithChart(es, ticker)
    case IndicatorAdd(_, ticker, indicator) => WithIndicator(es, ticker, indicator)
    case IndicatorRemove(_, ticker, indicator) => WithoutIndicator(es, ticker, indicator)
    case RemoveChart(_, ticker) => WithoutChart(es, ticker)
  }

  lemma EntriesFit(strict: bool, es: seq<Json>, op: Op)
    requires IsChartOp(op) && Fits(strict, Entries, Arr(es))
    ensures Fits(strict, Entries, Arr(EntriesAfter(es, op))) <==> strict ==> CleanHere(es, op)
  {
    match op
    case AddChart(_, ticker) => if FirstChart(es, ticker) == |es| { WithChartFits(strict, es, ticker); }
    case RemoveChart(_, ticker) => WithoutChartFits(strict, es, ticker);
    case IndicatorAdd(_, ticker, indicator) =>
      var k := FirstChart(es, ticker);
      if k < |es| {
        BaseKept(ChartText(es[k]).value, indicator);
        SetChartFits(strict, es, k, ChartText(es[k]).value + "&" + indicator);
      }
    case IndicatorRemove(_, ticker, indicator) =>
      var k := FirstChart(es, ticker);
      if k < |es| {
        var t := CutIndicator(ChartText(es[k]).value, indicator);
        if t.Some? { SetChartFits(strict, es, k, t.value); }
      }
  }

  lemma ChartStep(doc: Json, c: Coord, op: Op)
    requires IsChartOp(op) && op.c == c
    ensures Step(doc, op) == Edit(doc, ObjPath(c), v => EditElems(v, es => EntriesAfter(es, op)))
  {}

  lemma ChartOpFits(strict: bool, doc: Json, c: Coord, op: Op)
    requires Fits(strict, Doc, doc) && IsChartOp(op) && op.c == c
    ensures Fits(strict, Doc, Step(doc, op)) <==> strict ==> Clean(doc, op)
  {
    Levels(c);
    ChartStep(doc, c, op);
    var path := ObjPath(c);
    if Resolve(doc, path).Some? {
      FitsResolve(strict, Doc, doc, path);
      var es := Resolve(doc, path).value.elems;
      var after := Arr(EntriesAfter(es, op));
      EntriesFit(strict, es, op);
      UpdateTwice(doc, path, after, after);
      if Fits(strict, Entries, after) {
        FitsUpdate(strict, Doc, doc, path, after);
      } else if Fits(strict, Doc, Step(doc, op)) {
        FitsResolve(strict, Doc, Step(doc, op), path);
      }
    }
  }

  lemma FieldOpFits(strict: bool, doc: Json, c: Coord, op: Op, key: string, text: string)
    requires Fits(strict, Doc, doc)
    requires (op == SetName(c, text) && key == "title") || (op == SetGrid(c, text) && key == "grid")
    ensures Fits(strict, Doc, Step(doc, op))
  {
    Levels(c);
    var path := NamedPath(c);
    if Resolve(doc, path).Some? {
      FitsResolve(strict, Doc, doc, path);
      var v := Resolve(doc, path).value;
      FieldSet(strict, if c.wsid == -1 then Space else Work, v, key, text);
      FitsUpdate(strict, Doc, doc, path, SetField(v, key, text));
    }
  }

  lemma StepFits(strict: bool, doc: Json, op: Op)
    requires Fits(strict, Doc, doc) && (strict ==> Clean(doc, op))
    ensures Fits(strict, Doc, Step(doc, op))
  {
    match op
    case NewQuadspace(qvid, qsid, title, stockpage) =>
      SpaceFits(strict, qsid, title, stockpage);
      PlacedSpaceFits(strict, doc.elems, qvid, qsid, NewSpace(qsid, title, stockpage));
    case RemoveQuadspace(qvid, qsid) =>
      Levels(Coord(qvid, qsid, 0, 0));
      SlotFits(strict, doc, SpacesPath(qvid), op);
    case NewWorkspace(c, title, rest) =>
      Levels(c);
      SlotFits(strict, doc, WorksPath(c), op);
    case RemoveWorkspace(c) =>
      Levels(c);
      SlotFits(strict, doc, WorksPath(c), op);
    case AddChart(c, ticker) => ChartOpFits(strict, doc, c, op);
    case IndicatorAdd(c, ticker, indicator) => ChartOpFits(strict, doc, c, op);
    case IndicatorRemove(c, ticker, indicator) => ChartOpFits(strict, doc, c, op);
    case RemoveChart(c, ticker) => ChartOpFits(strict, doc, c, op);
    case SetName(c, title) => FieldOpFits(strict, doc, c, op, "title", title);
    case SetGrid(c, grid) => FieldOpFits(strict, doc, c, op, "grid", grid);
  }

  lemma NullsFit(strict: bool, n: nat)
    ensures Fits(strict, Doc, Arr(Nulls(n)))
  {}

  lemma CreatedFits(strict: bool, qvid: int, qsid: int, title: string, stockpage: bool)
    ensures Fits(strict, Doc, Created(qvid, qsid, title, stockpage))
  {
    var nulls := Arr(Nulls(if qvid > 0 then qvid else 0));
    NullsFit(strict, if qvid > 0 then qvid else 0);
    StepFits(strict, nulls, NewQuadspace(qvid, qsid, title, stockpage));
  }

  /** A step keeps a document free of clashes exactly if it is clean. */
  lemma StepStrict(doc: Json, op: Op)
    requires Fits(true, Doc, doc)
    ensures Fits(true, Doc, Step(doc, op)) <==> Clean(doc, op)
  {
    if IsChartOp(op) {
      ChartOpFits(true, doc, op.c, op);
    } else {
      StepFits(true, doc, op);
    }
  }

  /** Every operation of the run is clean where it comes. */
  predicate CleanRun(doc: Json, ops: seq<Op>)
    decreases |ops|
  {
    ops == [] || (Clean(doc, ops[0]) && CleanRun(Step(doc, ops[0]), ops[1..]))
  }

  /** Over every run the document keeps its shape; and over every clean run no two charts of a workspace
      have the same ticker. */
  lemma {:induction false} RunFits(strict: bool, doc: Json, ops: seq<Op>)
    requires Fits(strict, Doc, doc) && (strict ==> CleanRun(doc, ops))
    ensures Fits(strict, Doc, Run(doc, ops))
    decreases |ops|
  {
    if ops == [] {
    } else {
      StepFits(strict, doc, ops[0]);
      RunFits(strict, Step(doc, ops[0]), ops[1..]);
    }
  }

  lemma RunFromCreation(strict: bool, qvid: int, qsid: int, title: string, stockpage: bool, ops: seq<Op>)
    requires strict ==> CleanRun(Created(qvid, qsid, title, stockpage), ops)
    ensures Fits(strict, Doc, Run(Created(qvid, qsid, title, stockpage), ops))
  {
    CreatedFits(strict, qvid, qsid, title, stockpage);
    RunFits(strict, Created(qvid, qsid, title, stockpage), ops);
  }

  ghost predicate StrictThroughout(doc: Json, ops: seq<Op>) {
    forall n :: 0 <= n <= |ops| ==> Fits(true, Doc, Run(doc, ops[..n]))
  }

  lemma RunStep(doc: Json, ops: seq<Op>, n: nat)
    requires 0 < n <= |ops|
    ensures Run(doc, ops[..n]) == Run(Step(doc, ops[0]), ops[1..][..n - 1])
  {
    assert ops[..n][0] == ops[0] && ops[..n][1..] == ops[1..][..n - 1];
  }

  lemma RunOfNone(doc: Json, ops: seq<Op>)
    requires ops == []
    ensures Run(doc, ops) == doc
  {}

  /** A run stays free of clashes throughout exactly if it is clean. */
  lemma {:induction false} RunStrict(doc: Json, ops: seq<Op>)
    requires Fits(true, Doc, doc)
    ensures StrictThroughout(doc, ops) <==> CleanRun(doc, ops)
    decreases |ops|
  {
    assert ops[..0] == [];
    if ops == [] {
    } else {
      var next := Step(doc, ops[0]);
      StepStrict(doc, ops[0]);
      forall n | 0 < n <= |ops| ensures Run(doc, ops[..n]) == Run(next, ops[1..][..n - 1]) {
        RunStep(doc, ops, n);
      }
      hide Step, Clean, Fits, Run;
      if Fits(true, Doc, next) {
        RunStrict(next, ops[1..]);
        if StrictThroughout(doc, ops) {
          forall n | 0 <= n <= |ops[1..]| ensures Fits(true, Doc, Run(next, ops[1..][..n])) {
            assert Fits(true, Doc, Run(doc, ops[..n + 1]));
          }
        }
      } else {
        RunOfNone(next, ops[1..][..0]);
        assert Run(doc, ops[..1]) == next;
      }
    }
  }

  // ---- what strict means ----

  /** No list of entries under `v` has two charts of one ticker. */
  ghost predicate ClashFree(lv: Level, v: Json) {
    forall path :: Descend(lv, path) == Some(Entries) && Resolve(v, path).Some? && Resolve(v, path).value.Arr? ==>
                     BasesDistinct(Resolve(v, path).value.elems)
  }

  lemma ClashFreeChild(lv: Level, v: Json, t: Tok)
    requires ClashFree(lv, v) && Child(v, t).Some? && Within(lv, t).Some?
    ensures ClashFree(Within(lv, t).value, Child(v, t).value)
  {
    forall q | Descend(Within(lv, t).value, q) == Some(Entries) && Resolve(Child(v, t).value, q).Some?
               && Resolve(Child(v, t).value, q).value.Arr?
      ensures BasesDistinct(Resolve(Child(v, t).value, q).value.elems)
    {
      var path := [t] + q;
      assert path[0] == t && path[1..] == q;
      assert Descend(lv, path) == Some(Entries);
    }
  }

  lemma {:induction false} GetDistinct(pairs: seq<Pair>, i: nat)
    requires DistinctKeys(pairs) && i < |pairs|
    ensures Get(pairs, pairs[i].key) == Some(pairs[i].val)
  {
    if i == 0 {
    } else {
      GetDistinct(pairs[1..], i - 1);
    }
  }

  lemma EntriesStrict(es: seq<Json>)
    requires ElemsFit(false, Entry, es)
    ensures ElemsFit(true, Entry, es)
  {
    forall i | 0 <= i < |es| ensures Fits(true, Entry, es[i]) {
      assert Fits(false, Entry, es[i]) && FieldsFit(false, Entry, es[i].pairs);
      var p := es[i].pairs[0];
      assert FieldFits(false, Entry, p) && FieldFits(true, Entry, p);
    }
  }

  lemma {:induction false} StrictFrom(lv: Level, v: Json)
    requires Fits(false, lv, v) && ClashFree(lv, v)
    ensures Fits(true, lv, v)
    decreases v
  {
    if v.Arr? && lv != Entry {
      if lv == Entries {
        assert Descend(lv, []) == Some(Entries) && Resolve(v, []) == Some(v);
        EntriesStrict(v.elems);
      } else {
        var next := Within(lv, Idx(0)).value;
        forall i | 0 <= i < |v.elems| ensures Fits(true, next, v.elems[i]) {
          ClashFreeChild(lv, v, Idx(i));
          StrictFrom(next, v.elems[i]);
        }
      }
    } else if v.Obj? {
      forall i | 0 <= i < |v.pairs| ensures FieldFits(true, lv, v.pairs[i]) {
        var p := v.pairs[i];
        assert FieldFits(false, lv, p);
        if Within(lv, Name(p.key)).Some? {
          GetDistinct(v.pairs, i);
          ClashFreeChild(lv, v, Name(p.key));
          StrictFrom(Within(lv, Name(p.key)).value, p.val);
        }
      }
    }
  }

  lemma {:induction false} StrictFits(lv: Level, v: Json)
    requires Fits(true, lv, v)
    ensures Fits(false, lv, v)
    decreases v
  {
    if v.Arr? {
      forall i | 0 <= i < |v.elems| && Within(lv, Idx(i)).Some?
        ensures Fits(false, Within(lv, Idx(i)).value, v.elems[i]) {
        StrictFits(Within(lv, Idx(i)).value, v.elems[i]);
      }
      if lv == Entries {
        forall i | 0 <= i < |v.elems| ensures Fits(false, Entry, v.elems[i]) { StrictFits(Entry, v.elems[i]); }
      }
    } else if v.Obj? {
      forall i | 0 <= i < |v.pairs| ensures FieldFits(false, lv, v.pairs[i]) {
        var p := v.pairs[i];
        assert FieldFits(true, lv, p);
        if Within(lv, Name(p.key)).Some? { StrictFits(Within(lv, Name(p.key)).value, p.val); }
      }
    }
  }

  /** Only a workspace's path leads from the root to a list of entries. */
  lemma EntriesPath(path: seq<Tok>) returns (c: Coord)
    requires Descend(Doc, path) == Some(Entries)
    ensures path == ObjPath(c)
  {
    var p1 := path[1..];
    assert Descend(Verse, p1) == Some(Entries);
    var p2 := p1[1..];
    assert Descend(Space, p2) == Some(Entries);
    var p3 := p2[1..];
    assert Descend(Quads, p3) == Some(Entries);
    var p4 := p3[1..];
    assert Descend(Quad, p4) == Some(Entries);
    var p5 := p4[1..];
    assert Descend(Works, p5) == Some(Entries);
    var p6 := p5[1..];
    assert Descend(Work, p6) == Some(Entries) && Descend(Entries, p6[1..]) == Some(Entries);
    c := Coord(path[0].i, p1[0].i, p3[0].i, p5[0].i);
  }

  /** A document is strict exactly if it is well formed and in every workspace the charts have different
      tickers. */
  lemma StrictIs(doc: Json)
    ensures Fits(true, Doc, doc) <==> Fits(false, Doc, doc) && forall c :: BasesDistinct(EntriesAt(doc, c))
  {
    if Fits(true, Doc, doc) {
      StrictFits(Doc, doc);
      forall c ensures BasesDistinct(EntriesAt(doc, c)) {
        Levels(c);
        if Resolve(doc, ObjPath(c)).Some? { FitsResolve(true, Doc, doc, ObjPath(c)); }
      }
    } else if Fits(false, Doc, doc) && forall c :: BasesDistinct(EntriesAt(doc, c)) {
      forall path | Descend(Doc, path) == Some(Entries) && Resolve(doc, path).Some? && Resolve(doc, path).value.Arr?
        ensures BasesDistinct(Resolve(doc, path).value.elems) {
        var c := EntriesPath(path);
        assert BasesDistinct(EntriesAt(doc, c));
      }
      StrictFrom(Doc, doc);
    }
  }

  /** Chart tickers have no '&' and no indicator is taken away. */
  predicate Plain(op: Op) {
    match op
    case AddChart(_, ticker) => '&' !in ticker
    case IndicatorRemove(_, _, _) => false
    case _ => true
  }

  lemma PlainIsClean(doc: Json, op: Op)
    requires Plain(op)
    ensures Clean(doc, op)
  {
    if op.AddChart? {
      var es := EntriesAt(doc, op.c);
      BaseOfPlain(op.ticker);
      if FirstChart(es, op.ticker) == |es| {
        forall i | 0 <= i < |es| && ChartText(es[i]).Some? ensures Base(ChartText(es[i]).value) != op.ticker {
          BasePrefix(ChartText(es[i]).value);
          assert !ChartStarts(es[i], op.ticker);
        }
      }
    }
  }

  /** In runs without indicator removals, tickers without '&' are enough. */
  lemma {:induction false} PlainRunIsClean(doc: Json, ops: seq<Op>)
    requires forall i :: 0 <= i < |ops| ==> Plain(ops[i])
    ensures CleanRun(doc, ops)
    decreases |ops|
  {
    if ops == [] {
    } else {
      PlainIsClean(doc, ops[0]);
      PlainRunIsClean(Step(doc, ops[0]), ops[1..]);
    }
  }

  /** What a strict document promises of one workspace. */
  lemma TickersDistinct(doc: Json, c: Coord, i: nat, j: nat)
    requires Fits(true, Doc, doc) && Resolve(doc, ObjPath(c)).Some?
    ensures Resolve(doc, ObjPath(c)).value.Arr?
    ensures var es := Resolve(doc, ObjPath(c)).value.elems;
            i < j < |es| && ChartText(es[i]).Some? && ChartText(es[j]).Some? ==>
              Base(ChartText(es[i]).value) != Base(ChartText(es[j]).value)
  {
    Levels(c);
    FitsResolve(true, Doc, doc, ObjPath(c));
  }

  lemma {:induction false} BaseIs(text: string, b: nat)
    requires b <= |text| && '&' !in text[..b] && (b < |text| ==> text[b] == '&')
    ensures Base(text) == text[..b]
  {
    if b == 0 {
    } else {
      assert text[..b][0] == text[0];
      assert text[1..][..b - 1] == text[..b][1..];
      BaseIs(text[1..], b - 1);
      assert text[..b] == [text[0]] + text[1..][..b - 1];
    }
  }

  lemma {:induction false} BaseEnds(text: string)
    ensures |Base(text)| <= |text| && (|Base(text)| < |text| ==> text[|Base(text)|] == '&')
  {
    if text == "" || text[0] == '&' {
    } else {
      BaseEnds(text[1..]);
    }
  }

  lemma {:induction false} BaseJoin(a: string, more: string)
    requires '&' !in a
    ensures Base(a + more) == a + Base(more)
  {
    if a == "" {
      assert a + more == more;
    } else {
      assert (a + more)[1..] == a[1..] + more;
      BaseJoin(a[1..], more);
    }
  }

  lemma BaseParts(text: string)
    ensures var b := |Base(text)|;
            b <= |text| && Base(text) == text[..b] && '&' !in text[..b] && (b < |text| ==> text[b] == '&')
  {
    BasePrefix(text);
    BaseEnds(text);
  }

  lemma CutAfterBase(text: string, indicator: string, p: nat, b: nat)
    requires StrStr(text, indicator) == Some(p) && b < p <= |text|
    requires '&' !in text[..b] && text[b] == '&'
    ensures Base(CutIndicator(text, indicator).value) == text[..b]
  {
    var cut := CutIndicator(text, indicator).value;
    hide StrStr, StrChr;
    assert cut[..b] == text[..b] && (b < |cut| ==> cut[b] == text[b]);
    BaseIs(cut, b);
  }

  lemma {:induction false} StrChrIs(text: string, c: char, k: nat)
    requires k < |text| && text[k] == c && c !in text[..k]
    ensures StrChr(text, c) == Some(k)
  {
    if k == 0 {
    } else {
      assert text[0] == text[..k][0];
      assert text[1..][..k - 1] == text[..k][1..];
      StrChrIs(text[1..], c, k - 1);
    }
  }

  lemma CutInBase(text: string, indicator: string, p: nat, b: nat)
    requires StrStr(text, indicator) == Some(p) && p <= b < |text|
    requires text[b] == '&' && '&' !in text[..b]
    ensures CutIndicator(text, indicator) == Some(text[..p] + text[b + 1..])
    ensures Base(text[..p] + text[b + 1..]) == text[..p] + Base(text[b + 1..])
    ensures text[..b] == text[..p] + text[p..b]
  {
    assert text[..b] == text[..p] + text[p..b];
    assert text[p..][..b - p] == text[p..b];
    StrChrIs(text[p..], '&', b - p);
    assert text[p..][b - p + 1..] == text[b + 1..];
    hide StrStr, StrChr, Base;
    BaseJoin(text[..p], text[b + 1..]);
  }

  lemma CutPlain(text: string, indicator: string, p: nat)
    requires StrStr(text, indicator) == Some(p) && p <= |text| && '&' !in text
    ensures Base(CutIndicator(text, indicator).value) == if p > 0 then text[..p - 1] else text
  {
    assert forall x :: x in text[p..] ==> x in text;
    BaseOfPlain(text);
    if p > 0 {
      assert forall x :: x in text[..p - 1] ==> x in text;
      BaseOfPlain(text[..p - 1]);
    }
  }

  /** An occurrence at `p` lies after the ticker, which has `b` characters; or the text after the ticker
      makes up for what goes of it; or there is only a ticker and the cut would start before it. */
  predicate Spared(text: string, p: nat, b: nat)
    requires p <= |text| && b <= |text|
  {
    p > b || if b < |text| then Base(text[b + 1..]) == text[p..b] else p == 0
  }

  lemma SameRest(a: string, b: string, c: string)
    ensures a + b == a + c ==> b == c
  {
    assert (a + b)[|a|..] == b && (a + c)[|a|..] == c;
  }

  /** Exactly then does removing an indicator leave the chart's ticker as it was. */
  lemma CutKeepsBase(text: string, indicator: string)
    requires StrStr(text, indicator).Some?
    ensures |Base(text)| <= |text|
    ensures Base(CutIndicator(text, indicator).value) == Base(text)
            <==> Spared(text, StrStr(text, indicator).value, |Base(text)|)
  {
    hide StrStr, Base, CutIndicator, StrChr;
    var p, b := StrStr(text, indicator).value, |Base(text)|;
    BaseParts(text);
    if p > b {
      CutAfterBase(text, indicator, p, b);
    } else if b < |text| {
      CutInBase(text, indicator, p, b);
      assert text[..p] + text[p..b] == text[..p] + Base(text[b + 1..]) ==> text[p..b] == Base(text[b + 1..]) by {
        SameRest(text[..p], text[p..b], Base(text[b + 1..]));
      }
    } else {
      assert text[..b] == text;
      CutPlain(text, indicator, p);
    }
  }

  /** Such a removal is clean. */
  lemma SparedIsClean(doc: Json, c: Coord, ticker: string, indicator: string)
    requires Fits(true, Doc, doc)
    requires var es := EntriesAt(doc, c);
             var k := FirstChart(es, ticker);
             k < |es| ==>
               var text := ChartText(es[k]).value;
               StrStr(text, indicator).Some? ==>
                 |Base(text)| <= |text| && Spared(text, StrStr(text, indicator).value, |Base(text)|)
    ensures Clean(doc, IndicatorRemove(c, ticker, indicator))
  {
    Levels(c);
    if Resolve(doc, ObjPath(c)).Some? { FitsResolve(true, Doc, doc, ObjPath(c)); }
    var es := EntriesAt(doc, c);
    var k := FirstChart(es, ticker);
    if k < |es| && StrStr(ChartText(es[k]).value, indicator).Some? {
      assert BasesDistinct(es);
      CutKeepsBase(ChartText(es[k]).value, indicator);
    }
  }

  // ---- two charts of one ticker ----

  const CORNER := Coord(0, 0, 0, 0)

  /** Charts atr and T, the indicator atr on T, and the removal of T, whose first occurrence in "T&atr" is
      the ticker. */
  const CLASHING := [AddChart(CORNER, "atr"), AddChart(CORNER, "T"), IndicatorAdd(CORNER, "T", "atr"),
                     IndicatorRemove(CORNER, "T", "T")]

  lemma EntriesStep(doc: Json, es: seq<Json>, op: Op)
    requires IsChartOp(op) && Resolve(doc, ObjPath(op.c)) == Some(Arr(es))
    ensures Resolve(Step(doc, op), ObjPath(op.c)) == Some(Arr(EntriesAfter(es, op)))
    ensures Step(doc, op) == Update(doc, ObjPath(op.c), Arr(EntriesAfter(es, op)))
  {
    UpdateTwice(doc, ObjPath(op.c), Arr(EntriesAfter(es, op)), doc);
  }

  lemma PlacedFirst(x: Json)
    ensures Placed([], 0, x) == [x]
  {}

  lemma CornerSpace()
    ensures Created(0, 0, "", false) == Arr([Arr([NewSpace(0, "", false)])])
  {
    hide NewSpace;
    PlacedFirst(NewSpace(0, "", false));
    PlacedFirst(Arr([NewSpace(0, "", false)]));
    assert Nulls(0) == [];
  }

  lemma QuadsWithin()
    ensures Child(NewSpace(0, "", false), Name("quads")) == Some(Arr([NewQuad(), NewQuad(), NewQuad(), NewQuad()]))
  {
    hide Get;
    var s := NewSpace(0, "", false).pairs;
    assert s == [s[0]] + ([s[1]] + ([s[2]] + []));
    GetOne(s[0], [s[1]] + ([s[2]] + []), "quads");
    GetOne(s[1], [s[2]] + [], "quads");
    GetOne(s[2], [], "quads");
  }

  lemma EntriesWithin()
    ensures Child(Workspace("NewTab"), Name("obj")) == Some(Arr([]))
  {
    hide Get;
    var w := Workspace("NewTab").pairs;
    assert w == [w[0]] + ([w[1]] + ([w[2]] + []));
    GetOne(w[0], [w[1]] + ([w[2]] + []), "obj");
    GetOne(w[1], [w[2]] + [], "obj");
    GetOne(w[2], [], "obj");
  }

  lemma WorksWithin()
    ensures Child(NewQuad(), Name("workspace")) == Some(Arr([Workspace("NewTab")]))
  {}

  /** One step further down a path. */
  lemma OneFurther(doc: Json, path: seq<Tok>, t: Tok)
    requires Resolve(doc, path).Some?
    ensures Resolve(doc, path + [t]) == Child(Resolve(doc, path).value, t)
  {
    ResolveConcat(doc, path, [t]);
    UpdateOne(Resolve(doc, path).value, t, Null);
  }

  lemma NewCorner()
    ensures Resolve(Created(0, 0, "", false), ObjPath(CORNER)) == Some(Arr([]))
  {
    hide Created, Resolve, NewSpace, NewQuad, Workspace, Get;
    CornerSpace();
    QuadsWithin();
    WorksWithin();
    EntriesWithin();
    var doc := Created(0, 0, "", false);
    UpdateOne(doc, Idx(0), Null);
    OneFurther(doc, [Idx(0)], Idx(0));
    OneFurther(doc, [Idx(0)] + [Idx(0)], Name("quads"));
    OneFurther(doc, [Idx(0)] + [Idx(0)] + [Name("quads")], Idx(0));
    OneFurther(doc, [Idx(0)] + [Idx(0)] + [Name("quads")] + [Idx(0)], Name("workspace"));
    OneFurther(doc, [Idx(0)] + [Idx(0)] + [Name("quads")] + [Idx(0)] + [Name("workspace")], Idx(0));
    assert [Idx(0)] + [Idx(0)] + [Name("quads")] + [Idx(0)] + [Name("workspace")] + [Idx(0)] == WorkPath(CORNER);
    OneFurther(doc, WorkPath(CORNER), Name("obj"));
  }

  lemma ChartIs(text: string, more: string)
    ensures ChartText(Chart(text)) == Some(text) && SetChart(Chart(text), more) == Chart(more)
  {
    assert FieldFits(false, Entry, Chart(text).pairs[0]);
    GetOne(Chart(text).pairs[0], [], "chart");
    assert [Chart(text).pairs[0]] + [] == Chart(text).pairs;
    OnlyChart(false, Chart(text), more);
  }

  lemma ClashingAdds()
    ensures EntriesAfter([], AddChart(CORNER, "atr")) == [Chart("atr")]
    ensures EntriesAfter([Chart("atr")], AddChart(CORNER, "T")) == [Chart("atr"), Chart("T")]
  {
    ChartIs("atr", "");
    hide ChartText;
    assert "T"[0] == 'T' && "atr"[0] == 'a';
  }

  lemma {:induction false} FirstChartIs(es: seq<Json>, ticker: string, k: nat)
    requires k < |es| && ChartStarts(es[k], ticker) && forall i :: 0 <= i < k ==> !ChartStarts(es[i], ticker)
    ensures FirstChart(es, ticker) == k
  {}

  lemma ClashingIndicators()
    ensures EntriesAfter([Chart("atr"), Chart("T")], IndicatorAdd(CORNER, "T", "atr")) == [Chart("atr"), Chart("T&atr")]
    ensures EntriesAfter([Chart("atr"), Chart("T&atr")], IndicatorRemove(CORNER, "T", "T"))
            == [Chart("atr"), Chart("atr")]
  {
    hide ChartText, SetChart, CutIndicator, FirstChart, Chart;
    ChartIs("atr", "");
    ChartIs("T", "T&atr");
    ChartIs("T&atr", "atr");
    var text := "T&atr";
    assert "T"[0] == 'T' && "atr"[0] == 'a' && "T" <= text;
    FirstChartIs([Chart("atr"), Chart("T")], "T", 1);
    FirstChartIs([Chart("atr"), Chart(text)], "T", 1);
    assert "T" + "&" + "atr" == text;
    assert text[..1] == "T" && text[..0] + text[2..] == "atr";
    CutInBase(text, "T", 0, 1);
    assert [Chart("atr"), Chart(text)][1 := Chart("atr")] == [Chart("atr"), Chart("atr")];
  }

  lemma RunOne(doc: Json, ops: seq<Op>)
    requires ops != []
    ensures Run(doc, ops) == Run(Step(doc, ops[0]), ops[1..])
  {}

  lemma ClashingRun()
    ensures EntriesAt(Run(Created(0, 0, "", false), CLASHING), CORNER) == [Chart("atr"), Chart("atr")]
  {
    NewCorner();
    ClashingAdds();
    ClashingIndicators();
    var doc := Created(0, 0, "", false);
    hide Step, Run, EntriesAfter, Created, Chart;
    var ops := CLASHING;
    var d1 := Step(doc, ops[0]);
    var d2 := Step(d1, ops[1]);
    var d3 := Step(d2, ops[2]);
    EntriesStep(doc, [], ops[0]);
    EntriesStep(d1, [Chart("atr")], ops[1]);
    EntriesStep(d2, [Chart("atr"), Chart("T")], ops[2]);
    EntriesStep(d3, [Chart("atr"), Chart("T&atr")], ops[3]);
    RunOne(doc, ops);
    RunOne(d1, ops[1..]);
    RunOne(d2, ops[2..]);
    RunOne(d3, ops[3..]);
    RunOfNone(Step(d3, ops[3]), ops[4..]);
    assert ops[1..][1..] == ops[2..] && ops[2..][1..] == ops[3..] && ops[3..][1..] == ops[4..];
  }

  /** From a created document four operations lead to two charts of one ticker: the first three leave a
      document without clashes, the removal leaves two charts atr. */
  lemma RemovalCanClash()
    ensures var doc := Created(0, 0, "", false);
            && StrictThroughout(doc, CLASHING[..3])
            && EntriesAt(Run(doc, CLASHING), CORNER) == [Chart("atr"), Chart("atr")]
            && Fits(false, Doc, Run(doc, CLASHING)) && !Fits(true, Doc, Run(doc, CLASHING))
  {
    var doc := Created(0, 0, "", false);
    ClashingRun();
    CreatedFits(true, 0, 0, "", false);
    RunFromCreation(false, 0, 0, "", false, CLASHING);
    PlainRunIsClean(doc, CLASHING[..3]);
    RunStrict(doc, CLASHING[..3]);
    ChartIs("atr", "");
    hide Run, Created;
    var last := Run(doc, CLASHING);
    if Fits(true, Doc, last) { TickersDistinct(last, CORNER, 0, 1); }
  }

  // ---- an indicator added and removed again ----

  /** An occurrence of a text without '&' in `a`, '&' and that text is in `a` or is the last. */
  lemma OccursAfter(a: string, n: string)
    requires n != "" && '&' !in n && StrStr(a, n).None?
    ensures StrStr(a + "&" + n, n) == Some(|a| + 1)
    ensures StrChr((a + "&" + n)[|a| + 1..], '&').None?
  {
    hide StrStr, StrChr;
    var t := a + "&" + n;
    assert t[|a| + 1..] == n;
    assert OccursAt(t, n, |a| + 1);
    forall i | 0 <= i <= |a| ensures !OccursAt(t, n, i) {
      if i + |n| <= |a| {
        assert t[i..i + |n|] == a[i..i + |n|] && !OccursAt(a, n, i);
      } else {
        assert t[|a|] == '&' && n[|a| - i] != '&';
        assert i + |n| <= |t| ==> t[i..i + |n|][|a| - i] == t[|a|];
      }
    }
  }

  lemma EmptyOccurs(text: string)
    ensures StrStr(text, "") == Some(0)
  {}

  lemma AddThenCut(text: string, indicator: string)
    requires '&' !in indicator && StrStr(text, indicator).None?
    ensures CutIndicator(text + "&" + indicator, indicator) == Some(text)
  {
    EmptyOccurs(text);
    OccursAfter(text, indicator);
    assert (text + "&" + indicator)[..|text|] == text;
  }

  lemma EntryFits(es: seq<Json>, k: nat)
    requires Fits(false, Entries, Arr(es)) && k < |es|
    ensures Fits(false, Entry, es[k])
  {
    assert ElemsFit(false, Entry, es);
  }

  lemma EntriesRestored(es: seq<Json>, ticker: string, indicator: string)
    requires Fits(false, Entries, Arr(es)) && FirstChart(es, ticker) < |es|
    requires '&' !in indicator
    requires StrStr(ChartText(es[FirstChart(es, ticker)]).value, indicator).None?
    ensures WithoutIndicator(WithIndicator(es, ticker, indicator), ticker, indicator) == es
  {
    hide Fits, FirstChart, ChartText, SetChart, CutIndicator, StrStr;
    var k := FirstChart(es, ticker);
    var text := ChartText(es[k]).value;
    var more := text + "&" + indicator;
    EntryFits(es, k);
    OnlyChart(false, es[k], more);
    var mid := es[k := SetChart(es[k], more)];
    assert ticker <= more;
    FirstChartIs(mid, ticker, k);
    AddThenCut(text, indicator);
    OnlyChart(false, mid[k], text);
    assert mid[k := es[k]] == es;
  }

  /** Adding an indicator without '&' that does not occur in the chosen chart's text and then removing it
      gives the document back. */
  lemma IndicatorRoundTrip(doc: Json, c: Coord, ticker: string, indicator: string)
    requires Fits(false, Doc, doc) && '&' !in indicator
    requires var es := EntriesAt(doc, c);
             var k := FirstChart(es, ticker);
             k < |es| && StrStr(ChartText(es[k]).value, indicator).None?
    ensures Step(Step(doc, IndicatorAdd(c, ticker, indicator)), IndicatorRemove(c, ticker, indicator)) == doc
  {
    hide Step, Fits, StrStr, FirstChart, ChartText, WithIndicator, WithoutIndicator, Update, Resolve;
    var path, es := ObjPath(c), EntriesAt(doc, c);
    Levels(c);
    FitsResolve(false, Doc, doc, path);
    EntriesRestored(es, ticker, indicator);
    EntriesStep(doc, es, IndicatorAdd(c, ticker, indicator));
    var mid := Step(doc, IndicatorAdd(c, ticker, indicator));
    EntriesStep(mid, WithIndicator(es, ticker, indicator), IndicatorRemove(c, ticker, indicator));
    UpdateTwice(doc, path, Arr(WithIndicator(es, ticker, indicator)), Arr(es));
  }
}
