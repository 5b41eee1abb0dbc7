/** What each operation leaves in the place that it works on. */
module QCacheEffects {
  import CString
  import opened JsonValues
  import opened QCacheCuts
  import opened QCacheRuns
  import opened QCacheSpec
  import opened Sequences

  /** The paths, token by token. */
  lemma PathsAre(c: Coord)
    ensures SpacePath(c.qvid, c.qsid) == [Idx(c.qvid), Idx(c.qsid)]
    ensures WorksPath(c) == [Idx(c.qvid), Idx(c.qsid), Name("quads"), Idx(c.qid), Name("workspace")]
    ensures WorkPath(c) == [Idx(c.qvid), Idx(c.qsid), Name("quads"), Idx(c.qid), Name("workspace"), Idx(c.wsid)]
    ensures ObjPath(c) == WorkPath(c) + [Name("obj")]
    ensures NamedPath(c) == if c.wsid == -1 then [Idx(c.qvid), Idx(c.qsid)] else WorkPath(c)
  {}

  /** `s` with `x` in slot `i`, which may lie past its end: then nulls fill the slots between. */
  ghost predicate SlotFilled(s: seq<Json>, t: seq<Json>, i: nat, x: Json) {
    && |t| == (if i < |s| then |s| else i + 1) && t[i] == x
    && forall j :: 0 <= j < |t| && j != i ==> t[j] == if j < |s| then s[j] else Null
  }

  lemma PlacedFills(s: seq<Json>, i: nat, x: Json)
    ensures SlotFilled(s, Placed(s, i, x), i, x)
  {}

  // ---- title and grid ----

  lemma FieldSets(doc: Json, path: seq<Tok>, key: string, text: string, other: string)
    requires Resolve(doc, path).Some? && Resolve(doc, path).value.Obj?
    ensures var d := Edit(doc, path, v => SetField(v, key, text));
            Resolve(d, path + [Name(other)])
            == if other == key then Some(Str(text)) else Resolve(doc, path + [Name(other)])
  {
    var v := Resolve(doc, path).value;
    var w := SetField(v, key, text);
    UpdateBelow(doc, path, w, [Name(other)]);
    UpdateOne(w, Name(other), Null);
    UpdateOne(v, Name(other), Null);
    ResolveConcat(doc, path, [Name(other)]);
    GetPut(v.pairs, key, Str(text), other);
  }

  /** The title is the one given, unless it has more than 24 characters; every other field is as it was. */
  lemma SetNameSets(doc: Json, c: Coord, title: string, other: string)
    requires Resolve(doc, NamedPath(c)).Some? && Resolve(doc, NamedPath(c)).value.Obj?
    ensures Resolve(Step(doc, SetName(c, title)), NamedPath(c) + [Name(other)])
            == if other == "title" && |title| <= 24 then Some(Str(title))
               else Resolve(doc, NamedPath(c) + [Name(other)])
  {
    FieldSets(doc, NamedPath(c), "title", title, other);
  }

  lemma SetGridSets(doc: Json, c: Coord, grid: string, other: string)
    requires Resolve(doc, NamedPath(c)).Some? && Resolve(doc, NamedPath(c)).value.Obj?
    ensures Resolve(Step(doc, SetGrid(c, grid)), NamedPath(c) + [Name(other)])
            == if other == "grid" then Some(Str(grid)) else Resolve(doc, NamedPath(c) + [Name(other)])
  {
    FieldSets(doc, NamedPath(c), "grid", grid, other);
  }

  // ---- slots ----

  lemma SlotStep(doc: Json, path: seq<Tok>, s: seq<Json>, t: seq<Json>, f: seq<Json> -> seq<Json>)
    requires Resolve(doc, path) == Some(Arr(s)) && f(s) == t
    ensures Resolve(Edit(doc, path, v => EditElems(v, f)), path) == Some(Arr(t))
  {
    UpdateTwice(doc, path, Arr(t), doc);
  }

  /** The new workspace is in its slot, with the title as far as 24 characters, the grid and no entries. */
  lemma NewWorkspaceFills(doc: Json, c: Coord, title: string, rest: string, s: seq<Json>)
    requires Resolve(doc, WorksPath(c)) == Some(Arr(s)) && c.wsid >= 0
    ensures var kept := if |title| < 24 then title else title[..24] + rest;
            var work := Obj([Pair("title", Str(kept)), Pair("grid", Str("grid100")), Pair("obj", Arr([]))]);
            exists t :: SlotFilled(s, t, c.wsid, work)
                        && Resolve(Step(doc, NewWorkspace(c, title, rest)), WorksPath(c)) == Some(Arr(t))
  {
    var work := Workspace(CutTitle(title, rest));
    var t := Placed(s, c.wsid, work);
    PlacedFills(s, c.wsid, work);
    SlotStep(doc, WorksPath(c), s, t, s => Placed(s, c.wsid, work));
  }

  /** A removed workspace leaves the text -1 in its slot. */
  lemma RemoveWorkspaceLeaves(doc: Json, c: Coord, s: seq<Json>)
    requires Resolve(doc, WorksPath(c)) == Some(Arr(s))
    ensures Resolve(Step(doc, RemoveWorkspace(c)), WorksPath(c))
            == Some(Arr(if 0 <= c.wsid < |s| then s[c.wsid := Str("-1")] else s))
  {
    SlotStep(doc, WorksPath(c), s, Replaced(s, c.wsid, TOMBSTONE), s => Replaced(s, c.wsid, TOMBSTONE));
  }

  /** So does a removed quadspace. */
  lemma RemoveQuadspaceLeaves(doc: Json, qvid: int, qsid: int, s: seq<Json>)
    requires Resolve(doc, [Idx(qvid)]) == Some(Arr(s))
    ensures Resolve(Step(doc, RemoveQuadspace(qvid, qsid)), [Idx(qvid)])
            == Some(Arr(if 0 <= qsid < |s| then s[qsid := Str("-1")] else s))
  {
    SlotStep(doc, SpacesPath(qvid), s, Replaced(s, qsid, TOMBSTONE), s => Replaced(s, qsid, TOMBSTONE));
  }

  /** A stock page has a title and the mark 1; any other quadspace its number in the title, a grid, and four quads
      of one empty workspace each. */
  function WholeSpace(number: string, title: string, stockpage: bool): Json {
    var work := Obj([Pair("title", Str("NewTab")), Pair("grid", Str("grid100")), Pair("obj", Arr([]))]);
    var quad := Obj([Pair("workspace", Arr([work]))]);
    if stockpage then Obj([Pair("title", Str(title)), Pair("sp", Num(1))])
    else Obj([Pair("title", Str("QuadSpace^" + number)), Pair("grid", Str("grid50")),
              Pair("quads", Arr([quad, quad, quad, quad]))])
  }

  /** "%d" writes the number, with a '-' in front of a negative one. */
  lemma DecimalWrites(n: int)
    ensures var d := Decimal(n);
            if n < 0 then d != "" && d[0] == '-' && CString.NumberOf(d[1..]) == -n else CString.NumberOf(d) == n
  {
    if n < 0 {
      CString.DecimalIs(-n);
      assert Decimal(n)[1..] == CString.Decimal(-n);
    } else {
      CString.DecimalIs(n);
    }
  }

  /** The new quadspace is in its slot of its quadverse, which is in its slot of the document. */
  lemma NewQuadspaceFills(verses: seq<Json>, qvid: nat, qsid: nat, title: string, stockpage: bool)
    requires qvid < |verses| ==> verses[qvid] == Null || verses[qvid].Arr?
    ensures var spaces := if qvid < |verses| && verses[qvid] != Null then verses[qvid].elems else [];
            exists t, u :: SlotFilled(spaces, t, qsid, WholeSpace(Decimal(qsid), title, stockpage))
                           && SlotFilled(verses, u, qvid, Arr(t))
                           && Step(Arr(verses), NewQuadspace(qvid, qsid, title, stockpage)) == Arr(u)
  {
    var spaces := if qvid < |verses| && verses[qvid] != Null then verses[qvid].elems else [];
    var space := NewSpace(qsid, title, stockpage);
    assert space == WholeSpace(Decimal(qsid), title, stockpage);
    var t := Placed(spaces, qsid, space);
    var u := PlacedSpace(verses, qvid, qsid, space);
    PlacedFills(spaces, qsid, space);
    assert SlotFilled(verses, u, qvid, Arr(t));
    assert Step(Arr(verses), NewQuadspace(qvid, qsid, title, stockpage)) == Arr(u);
  }

  /** A created document is one quadverse behind nulls, with one quadspace behind nulls. */
  lemma CreatedIs(qvid: nat, qsid: nat, title: string, stockpage: bool)
    ensures var space := WholeSpace(Decimal(qsid), title, stockpage);
            exists t, u ::
              && |t| == qsid + 1 && t[qsid] == space && (forall j :: 0 <= j < qsid ==> t[j] == Null)
              && |u| == qvid + 1 && u[qvid] == Arr(t) && (forall j :: 0 <= j < qvid ==> u[j] == Null)
              && Created(qvid, qsid, title, stockpage) == Arr(u)
  {
    var space := WholeSpace(Decimal(qsid), title, stockpage);
    NewQuadspaceFills(Nulls(qvid), qvid, qsid, title, stockpage);
    var t, u :| SlotFilled([], t, qsid, space) && SlotFilled(Nulls(qvid), u, qvid, Arr(t))
                && Step(Arr(Nulls(qvid)), NewQuadspace(qvid, qsid, title, stockpage)) == Arr(u);
    assert |t| == qsid + 1 && t[qsid] == space && |u| == qvid + 1 && u[qvid] == Arr(t);
    assert Created(qvid, qsid, title, stockpage) == Arr(u);
  }

  // ---- charts ----

  /** The entry is a chart of this text. */
  predicate IsChart(e: Json, text: string) { e == Obj([Pair("chart", Str(text))]) }

  /** The text that the operations look at is that of the chart. */
  lemma ChartTextIs(e: Json, text: string)
    requires Fits(false, Entry, e)
    ensures ChartText(e) == Some(text) <==> IsChart(e, text)
  {
    if ChartText(e).Some? { OnlyChart(false, e, text); }
    if IsChart(e, text) { GetOne(e.pairs[0], [], "chart"); assert e.pairs == [e.pairs[0]] + []; }
  }

  /** Entry `k` is the first chart whose text starts with the ticker, and this is its text. */
  ghost predicate FirstOf(es: seq<Json>, ticker: string, k: int, text: string) {
    && 0 <= k < |es| && IsChart(es[k], text) && ticker <= text
    && forall i, x :: 0 <= i < k && IsChart(es[i], x) ==> !(ticker <= x)
  }

  lemma FirstOfIs(es: seq<Json>, ticker: string, k: nat, text: string)
    requires ElemsFit(false, Entry, es) && FirstOf(es, ticker, k, text)
    ensures k < |es| && FirstChart(es, ticker) == k && ChartText(es[k]) == Some(text)
  {
    ChartTextIs(es[k], text);
    forall i | 0 <= i < k ensures !ChartStarts(es[i], ticker) {
      if ChartText(es[i]).Some? { ChartTextIs(es[i], ChartText(es[i]).value); }
    }
  }

  ghost predicate NoneOf(es: seq<Json>, ticker: string) {
    forall i, x :: 0 <= i < |es| && IsChart(es[i], x) ==> !(ticker <= x)
  }

  lemma NoneOfIs(es: seq<Json>, ticker: string)
    requires ElemsFit(false, Entry, es)
    ensures FirstChart(es, ticker) == |es| <==> NoneOf(es, ticker)
  {
    forall i | 0 <= i < |es| ensures ChartText(es[i]).Some? ==> IsChart(es[i], ChartText(es[i]).value) {
      if ChartText(es[i]).Some? { ChartTextIs(es[i], ChartText(es[i]).value); }
    }
    forall i, x | 0 <= i < |es| && IsChart(es[i], x) ensures ChartText(es[i]) == Some(x) {
      ChartTextIs(es[i], x);
    }
    var k := FirstChart(es, ticker);
    if k < |es| { assert IsChart(es[k], ChartText(es[k]).value); }
  }

  lemma EntriesOf(doc: Json, c: Coord, es: seq<Json>)
    requires Fits(false, Doc, doc) && Resolve(doc, ObjPath(c)) == Some(Arr(es))
    ensures ElemsFit(false, Entry, es)
  {
    Levels(c);
    FitsResolve(false, Doc, doc, ObjPath(c));
  }

  /** A chart is added at the end, unless there is one whose text starts with the ticker. */
  lemma AddChartAdds(doc: Json, c: Coord, ticker: string, es: seq<Json>)
    requires Fits(false, Doc, doc) && Resolve(doc, ObjPath(c)) == Some(Arr(es))
    ensures Resolve(Step(doc, AddChart(c, ticker)), ObjPath(c))
            == Some(Arr(if NoneOf(es, ticker) then es + [Obj([Pair("chart", Str(ticker))])] else es))
  {
    hide Resolve, ObjPath, Fits;
    EntriesOf(doc, c, es);
    NoneOfIs(es, ticker);
    EntriesStep(doc, es, AddChart(c, ticker));
  }

  /** An indicator comes behind a '&' at the end of the first chart's text, and no other entry changes. */
  lemma IndicatorAddAdds(doc: Json, c: Coord, ticker: string, indicator: string, es: seq<Json>, k: nat, text: string)
    requires Fits(false, Doc, doc) && Resolve(doc, ObjPath(c)) == Some(Arr(es)) && FirstOf(es, ticker, k, text)
    ensures Resolve(Step(doc, IndicatorAdd(c, ticker, indicator)), ObjPath(c))
            == Some(Arr(es[k := Obj([Pair("chart", Str(text + "&" + indicator))])]))
  {
    hide Resolve, ObjPath, FirstOf, Fits;
    EntriesOf(doc, c, es);
    assert Fits(false, Entry, es[k]) by { FirstOfIs(es, ticker, k, text); }
    FirstOfIs(es, ticker, k, text);
    OnlyChart(false, es[k], text + "&" + indicator);
    EntriesStep(doc, es, IndicatorAdd(c, ticker, indicator));
  }

  /** An indicator that the first chart's text has is taken out of its fields, and no other entry changes. */
  lemma IndicatorRemoveCuts(doc: Json, c: Coord, ticker: string, indicator: string, es: seq<Json>, k: nat,
                            fs: seq<string>, j: nat)
    requires Fits(false, Doc, doc) && Resolve(doc, ObjPath(c)) == Some(Arr(es)) && FirstOf(es, ticker, k, Text(fs))
    requires Fielded(fs) && '&' !in indicator && j < |fs| && StrStr(fs[j], indicator).Some?
    requires forall i :: 0 <= i < j ==> StrStr(fs[i], indicator).None?
    ensures var cut := Text(CutField(fs, j, StrStr(fs[j], indicator).value));
            Resolve(Step(doc, IndicatorRemove(c, ticker, indicator)), ObjPath(c))
            == Some(Arr(es[k := Obj([Pair("chart", Str(cut))])]))
  {
    hide Resolve, ObjPath, FirstOf, CutIndicator, StrStr, CutField, Text, Fits;
    EntriesOf(doc, c, es);
    assert Fits(false, Entry, es[k]) by { FirstOfIs(es, ticker, k, Text(fs)); }
    FirstOfIs(es, ticker, k, Text(fs));
    CutsField(fs, indicator, j);
    OnlyChart(false, es[k], CutIndicator(Text(fs), indicator).value);
    EntriesStep(doc, es, IndicatorRemove(c, ticker, indicator));
  }

  /** Exactly the first chart of this text goes. */
  lemma RemoveChartRemoves(doc: Json, c: Coord, text: string, es: seq<Json>, k: nat)
    requires Fits(false, Doc, doc) && Resolve(doc, ObjPath(c)) == Some(Arr(es)) && k <= |es|
    requires (forall i :: 0 <= i < k ==> !IsChart(es[i], text)) && (k < |es| ==> IsChart(es[k], text))
    ensures Resolve(Step(doc, RemoveChart(c, text)), ObjPath(c))
            == Some(Arr(if k < |es| then es[..k] + es[k + 1..] else es))
  {
    hide Resolve, ObjPath, Fits;
    EntriesOf(doc, c, es);
    forall i | 0 <= i < |es| ensures ChartText(es[i]) == Some(text) <==> IsChart(es[i], text) {
      ChartTextIs(es[i], text);
    }
    EntriesStep(doc, es, RemoveChart(c, text));
  }

  /** Of a ticker and its indicators exactly the one to remove goes, if none before it has its letters. */
  lemma IndicatorGoes(doc: Json, c: Coord, ticker: string, es: seq<Json>, k: nat, fs: seq<string>, j: nat)
    requires Fits(false, Doc, doc) && Resolve(doc, ObjPath(c)) == Some(Arr(es)) && FirstOf(es, ticker, k, Text(fs))
    requires Fielded(fs) && 0 < j < |fs| && forall i :: 0 <= i < j ==> StrStr(fs[i], fs[j]).None?
    ensures Resolve(Step(doc, IndicatorRemove(c, ticker, fs[j])), ObjPath(c))
            == Some(Arr(es[k := Obj([Pair("chart", Str(Text(Without(fs, j))))])]))
  {
    hide Resolve, ObjPath, FirstOf, Fits, StrStr, Text;
    StrStrIs(fs[j], fs[j], 0);
    IndicatorRemoveCuts(doc, c, ticker, fs[j], es, k, fs, j);
  }

  /** Without such a chart, or with one whose fields do not have the indicator, nothing changes. */
  lemma IndicatorMisses(doc: Json, c: Coord, ticker: string, indicator: string, es: seq<Json>, k: nat, fs: seq<string>)
    requires Fits(false, Doc, doc) && Resolve(doc, ObjPath(c)) == Some(Arr(es)) && Fielded(fs) && '&' !in indicator
    requires NoneOf(es, ticker)
             || (FirstOf(es, ticker, k, Text(fs)) && forall i :: 0 <= i < |fs| ==> StrStr(fs[i], indicator).None?)
    ensures Resolve(Step(doc, IndicatorRemove(c, ticker, indicator)), ObjPath(c)) == Some(Arr(es))
    ensures NoneOf(es, ticker) ==> Resolve(Step(doc, IndicatorAdd(c, ticker, indicator)), ObjPath(c)) == Some(Arr(es))
  {
    hide Resolve, ObjPath, FirstOf, NoneOf, Fits, StrStr, Text, CutIndicator;
    EntriesOf(doc, c, es);
    NoneOfIs(es, ticker);
    if !NoneOf(es, ticker) {
      FirstOfIs(es, ticker, k, Text(fs));
      NoPlace(fs, indicator);
    }
    EntriesStep(doc, es, IndicatorRemove(c, ticker, indicator));
    EntriesStep(doc, es, IndicatorAdd(c, ticker, indicator));
  }

  // ---- the shape ----

  predicate Field(v: Json, key: string, text: bool)
    requires v.Obj?
  {
    Get(v.pairs, key).Some? && (text ==> Get(v.pairs, key).value.Str?)
  }

  lemma FieldOf(lv: Level, v: Json, key: string)
    requires v.Obj? && FieldsFit(false, lv, v.pairs) && Get(v.pairs, key).Some?
    ensures FieldFits(false, lv, Pair(key, Get(v.pairs, key).value))
  {
    var i := GetMember(v.pairs, key);
    assert FieldFits(false, lv, v.pairs[i]);
  }

  /** What a well-formed document has in the place of a quadspace: null, the text -1, a stock page, or a quadspace
      with title, grid and four quads. */
  lemma SpaceShape(doc: Json, c: Coord)
    requires Fits(false, Doc, doc) && Resolve(doc, SpacePath(c.qvid, c.qsid)).Some?
    ensures var v := Resolve(doc, SpacePath(c.qvid, c.qsid)).value;
            v == Null || v == Str("-1")
            || (v.Obj? && Field(v, "title", true)
                && if Field(v, "sp", false) then Get(v.pairs, "sp").value.Num? && !Field(v, "quads", false)
                   else Field(v, "grid", true) && Field(v, "quads", false) && Get(v.pairs, "quads").value.Arr?
                        && |Get(v.pairs, "quads").value.elems| == 4)
  {
    Levels(c);
    FitsResolve(false, Doc, doc, SpacePath(c.qvid, c.qsid));
    var v := Resolve(doc, SpacePath(c.qvid, c.qsid)).value;
    if v.Obj? {
      FieldOf(Space, v, "title");
      if Get(v.pairs, "sp").Some? { FieldOf(Space, v, "sp"); }
      if Get(v.pairs, "quads").Some? {
        FieldOf(Space, v, "grid");
        FieldOf(Space, v, "quads");
      }
    }
  }

  lemma EntryShape(e: Json)
    requires Fits(false, Entry, e)
    ensures e.Obj? && |e.pairs| == 1 && e.pairs[0].val.Str?
  {
    assert FieldFits(false, Entry, e.pairs[0]);
  }

  lemma EntriesShape(o: Json)
    requires Fits(false, Entries, o)
    ensures o.Arr? && forall e :: e in o.elems ==> e.Obj? && |e.pairs| == 1 && e.pairs[0].val.Str?
  {
    assert ElemsFit(false, Entry, o.elems);
    forall e | e in o.elems ensures e.Obj? && |e.pairs| == 1 && e.pairs[0].val.Str? {
      var i :| 0 <= i < |o.elems| && o.elems[i] == e;
      EntryShape(o.elems[i]);
    }
  }

  /** And in the place of a workspace: null, the text -1, or one with title, grid and entries, each of which has
      one field, a text. */
  lemma WorkShape(doc: Json, c: Coord)
    requires Fits(false, Doc, doc) && Resolve(doc, WorkPath(c)).Some?
    ensures var v := Resolve(doc, WorkPath(c)).value;
            v == Null || v == Str("-1")
            || (v.Obj? && Field(v, "title", true) && Field(v, "grid", true) && Field(v, "obj", false)
                && var o := Get(v.pairs, "obj").value;
                o.Arr? && forall e :: e in o.elems ==> e.Obj? && |e.pairs| == 1 && e.pairs[0].val.Str?)
  {
    Levels(c);
    FitsResolve(false, Doc, doc, WorkPath(c));
    var v := Resolve(doc, WorkPath(c)).value;
    if v.Obj? {
      FieldOf(Work, v, "title");
      FieldOf(Work, v, "grid");
      FieldOf(Work, v, "obj");
      EntriesShape(Get(v.pairs, "obj").value);
    }
  }
}
