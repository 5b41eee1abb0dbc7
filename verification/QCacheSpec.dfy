/** What the workspace document of src/c/qcache.c is, and what each operation does to it. */
module QCacheSpec {
  import CString
  import opened MachineInts
  import opened JsonValues
  import opened Sequences

  /** The coordinates of a workspace slot, and of what encloses it. */
  datatype Coord = Coord(qvid: int, qsid: int, qid: int, wsid: int)

  function SpacesPath(qvid: int): seq<Tok> { [Idx(qvid)] }
  function SpacePath(qvid: int, qsid: int): seq<Tok> { [Idx(qvid), Idx(qsid)] }
  function QuadsPath(qvid: int, qsid: int): seq<Tok> { SpacePath(qvid, qsid) + [Name("quads")] }
  function WorksPath(c: Coord): seq<Tok> { QuadsPath(c.qvid, c.qsid) + [Idx(c.qid), Name("workspace")] }
  function WorkPath(c: Coord): seq<Tok> { WorksPath(c) + [Idx(c.wsid)] }
  function ObjPath(c: Coord): seq<Tok> { WorkPath(c) + [Name("obj")] }

  const TOMBSTONE := Str("-1")

  // ---- the shape of a document ----

  /** What stands at each depth: the array of quadverses, one quadverse (its quadspaces), one quadspace,
      its quads, one quad, its workspaces, one workspace, its entries, one entry. */
  datatype Level = Doc | Verse | Space | Quads | Quad | Works | Work | Entries | Entry

  function Within(lv: Level, t: Tok): Option<Level> {
    match (lv, t)
    case (Doc, Idx(_)) => Some(Verse)
    case (Verse, Idx(_)) => Some(Space)
    case (Space, Name("quads")) => Some(Quads)
    case (Quads, Idx(_)) => Some(Quad)
    case (Quad, Name("workspace")) => Some(Works)
    case (Works, Idx(_)) => Some(Work)
    case (Work, Name("obj")) => Some(Entries)
    case _ => None
  }

  /** The key of an object's field decides what its value is. */
  ghost predicate FieldFits(strict: bool, lv: Level, p: Pair)
    decreases p, 0
  {
    match lv
    case Space =>
      if p.key == "quads" then Fits(strict, Quads, p.val)
      else if p.key == "sp" then p.val.Num?
      else (p.key == "title" || p.key == "grid") && p.val.Str?
    case Quad => p.key == "workspace" && Fits(strict, Works, p.val)
    case Work =>
      if p.key == "obj" then Fits(strict, Entries, p.val)
      else (p.key == "title" || p.key == "grid") && p.val.Str?
    case Entry => p.val.Str?
    case _ => false
  }

  ghost predicate ElemsFit(strict: bool, lv: Level, s: seq<Json>)
    decreases s, 0
  {
    forall i :: 0 <= i < |s| ==> Fits(strict, lv, s[i])
  }

  ghost predicate FieldsFit(strict: bool, lv: Level, s: seq<Pair>)
    decreases s, 1
  {
    DistinctKeys(s) && forall i :: 0 <= i < |s| ==> FieldFits(strict, lv, s[i])
  }

  /** A quadspace has a title, and either it is a stock page or it has a grid and quads. */
  predicate Complete(pairs: seq<Pair>) {
    && Get(pairs, "title").Some?
    && (Get(pairs, "sp").Some? <==> Get(pairs, "quads").None?)
    && (Get(pairs, "quads").Some? ==> Get(pairs, "grid").Some?)
  }

  /** The text under "chart", for an entry that has one. */
  function ChartText(e: Json): Option<string> {
    if e.Obj? && Get(e.pairs, "chart").Some? && Get(e.pairs, "chart").value.Str?
    then Some(Get(e.pairs, "chart").value.text) else None
  }

  /** A chart's ticker without its indicators: the text up to the first '&'. */
  function Base(text: string): string {
    if text == "" || text[0] == '&' then "" else [text[0]] + Base(text[1..])
  }

  ghost predicate BasesDistinct(es: seq<Json>) {
    forall i, j :: 0 <= i < j < |es| && ChartText(es[i]).Some? && ChartText(es[j]).Some? ==>
                     Base(ChartText(es[i]).value) != Base(ChartText(es[j]).value)
  }

  /** `v` is well formed at this depth. A strict document has in no workspace two charts of one ticker. */
  ghost predicate Fits(strict: bool, lv: Level, v: Json)
    decreases v, 2
  {
    match lv
    case Doc => v.Arr? && ElemsFit(strict, Verse, v.elems)
    case Verse => v == Null || (v.Arr? && ElemsFit(strict, Space, v.elems))
    case Space => v == Null || v == TOMBSTONE || (v.Obj? && FieldsFit(strict, Space, v.pairs) && Complete(v.pairs))
    case Quads => v.Arr? && |v.elems| == 4 && ElemsFit(strict, Quad, v.elems)
    case Quad => v.Obj? && |v.pairs| == 1 && FieldsFit(strict, Quad, v.pairs)
    case Works => v.Arr? && ElemsFit(strict, Work, v.elems)
    case Work =>
      v == Null || v == TOMBSTONE
      || (v.Obj? && FieldsFit(strict, Work, v.pairs)
          && Get(v.pairs, "title").Some? && Get(v.pairs, "grid").Some? && Get(v.pairs, "obj").Some?)
    case Entries => v.Arr? && ElemsFit(strict, Entry, v.elems) && (strict ==> BasesDistinct(v.elems))
    case Entry => v.Obj? && |v.pairs| == 1 && FieldsFit(strict, Entry, v.pairs)
  }

  // ---- charts ----

  function Chart(text: string): Json { Obj([Pair("chart", Str(text))]) }

  /** `strncmp(text, ticker, strlen(ticker)) == 0` */
  predicate StartsWith(text: string, ticker: string) {
    ticker <= text
  }

  predicate ChartStarts(e: Json, ticker: string) {
    ChartText(e).Some? && StartsWith(ChartText(e).value, ticker)
  }

  /** The first chart whose text starts with `ticker`, or the number of entries. */
  function FirstChart(es: seq<Json>, ticker: string): (k: nat)
    ensures k <= |es| && (k < |es| ==> ChartStarts(es[k], ticker))
    ensures forall i :: 0 <= i < k ==> !ChartStarts(es[i], ticker)
  {
    if es == [] || ChartStarts(es[0], ticker) then 0 else 1 + FirstChart(es[1..], ticker)
  }

  /** The first chart with exactly this text, or the number of entries. */
  function ExactChart(es: seq<Json>, ticker: string): (k: nat)
    ensures k <= |es| && (k < |es| ==> ChartText(es[k]) == Some(ticker))
    ensures forall i :: 0 <= i < k ==> ChartText(es[i]) != Some(ticker)
  {
    if es == [] || ChartText(es[0]) == Some(ticker) then 0 else 1 + ExactChart(es[1..], ticker)
  }

  /** `strstr`: where `n` first occurs in `h`. */
  function StrStr(h: string, n: string): (k: Option<nat>)
    ensures k.Some? ==> OccursAt(h, n, k.value) && forall i :: 0 <= i < k.value ==> !OccursAt(h, n, i)
    ensures k.None? ==> forall i :: 0 <= i ==> !OccursAt(h, n, i)
  {
    if OccursAt(h, n, 0) then Some(0)
    else if h == "" then None
    else
      var k := StrStr(h[1..], n);
      assert forall i :: 1 <= i ==> OccursAt(h, n, i) == OccursAt(h[1..], n, i - 1);
      if k.Some? then Some(k.value + 1) else None
  }

  /** `strchr(text, c)`. */
  function StrChr(text: string, c: char): (k: Option<nat>)
    ensures k.Some? ==> k.value < |text| && text[k.value] == c && c !in text[..k.value]
    ensures k.None? ==> c !in text
  {
    if text == "" then None
    else if text[0] == c then Some(0)
    else
      var k := StrChr(text[1..], c);
      assert k.Some? ==> text[..k.value + 1] == [text[0]] + text[1..][..k.value];
      if k.Some? then Some(k.value + 1) else None
  }

  /** The text of a chart without the first occurrence of `indicator`: with a later '&' the stretch up to
      and including that one goes, else everything from one character before the occurrence on. An
      occurrence at the very start with no later '&' leaves the text as it is. */
  function CutIndicator(text: string, indicator: string): Option<string> {
    var p := StrStr(text, indicator);
    if p.None? then None
    else
      var p2 := StrChr(text[p.value..], '&');
      if p2.Some? then Some(text[..p.value] + text[p.value + p2.value + 1..])
      else if p.value > 0 then Some(text[..p.value - 1])
      else Some(text)
  }

  // ---- what the operations build ----

  /** "%d" */
  function Decimal(n: int): string {
    if n < 0 then "-" + CString.Decimal(-n) else CString.Decimal(n)
  }

  function Workspace(title: string): Json {
    Obj([Pair("title", Str(title)), Pair("grid", Str("grid100")), Pair("obj", Arr([]))])
  }

  /** The first 24 bytes of a title; `rest` is what the uninitialised buffer holds after them when the
      title is not shorter. */
  function CutTitle(title: string, rest: string): string {
    if |title| < 24 then title else title[..24] + rest
  }

  function NewQuad(): Json { Obj([Pair("workspace", Arr([Workspace("NewTab")]))]) }

  /** The title of a quadspace that is no stock page. */
  function SpaceTitle(qsid: int): string { "QuadSpace^" + Decimal(qsid) }

  /** The buffer that the title and its NUL are written to has 16 bytes: room for five more characters. */
  lemma TitleFits(qsid: int)
    ensures |SpaceTitle(qsid)| + 1 <= 16 <==> -10000 < qsid < 100000
  {
    if qsid < 0 { CString.DecimalLength(-qsid, 4); } else { CString.DecimalLength(qsid, 5); }
    assert PowerOf10(4) == 10000 && PowerOf10(5) == 100000 by { assert PowerOf10(3) == 1000; }
  }

  function NewSpace(qsid: int, title: string, stockpage: bool): Json {
    if stockpage then Obj([Pair("title", Str(title)), Pair("sp", Num(1))])
    else Obj([Pair("title", Str(SpaceTitle(qsid))), Pair("grid", Str("grid50")),
              Pair("quads", Arr([NewQuad(), NewQuad(), NewQuad(), NewQuad()]))])
  }

  function Nulls(n: nat): (s: seq<Json>) { seq(n, _ => Null) }

  /** Put `x` in slot `i`: over what is there, or after as many nulls as it takes to get there. */
  function Placed(s: seq<Json>, i: int, x: Json): seq<Json> {
    if i < 0 then s
    else if i < |s| then s[i := x]
    else s + Nulls(i - |s|) + [x]
  }

  // ---- the operations ----

  datatype Op =
    | NewQuadspace(qvid: int, qsid: int, title: string, stockpage: bool)
    | NewWorkspace(c: Coord, title: string, rest: string)
    | RemoveQuadspace(qvid: int, qsid: int)
    | RemoveWorkspace(c: Coord)
    | AddChart(c: Coord, ticker: string)
    | IndicatorAdd(c: Coord, ticker: string, indicator: string)
    | IndicatorRemove(c: Coord, ticker: string, indicator: string)
    | RemoveChart(c: Coord, ticker: string)
    | SetName(c: Coord, title: string)
    | SetGrid(c: Coord, grid: string)

  /** Change what the path leads to, if it leads anywhere. */
  function Edit(doc: Json, path: seq<Tok>, f: Json -> Json): Json {
    var v := Resolve(doc, path);
    if v.Some? then Update(doc, path, f(v.value)) else doc
  }

  function EditElems(v: Json, f: seq<Json> -> seq<Json>): Json {
    if v.Arr? then Arr(f(v.elems)) else v
  }

  function Replaced(s: seq<Json>, i: int, x: Json): seq<Json> {
    if 0 <= i < |s| then s[i := x] else s
  }

  function WithChart(es: seq<Json>, ticker: string): seq<Json> {
    if FirstChart(es, ticker) < |es| then es else es + [Chart(ticker)]
  }

  function WithoutChart(es: seq<Json>, ticker: string): seq<Json> {
    var k := ExactChart(es, ticker);
    if k < |es| then es[..k] + es[k + 1..] else es
  }

  /** The text of entry `e` becomes `text`. */
  function SetChart(e: Json, text: string): Json {
    if e.Obj? then Obj(Put(e.pairs, "chart", Str(text))) else e
  }

  function WithIndicator(es: seq<Json>, ticker: string, indicator: string): seq<Json> {
    var k := FirstChart(es, ticker);
    if k < |es| then es[k := SetChart(es[k], ChartText(es[k]).value + "&" + indicator)] else es
  }

  function WithoutIndicator(es: seq<Json>, ticker: string, indicator: string): seq<Json> {
    var k := FirstChart(es, ticker);
    if k == |es| then es
    else
      var t := CutIndicator(ChartText(es[k]).value, indicator);
      if t.Some? then es[k := SetChart(es[k], t.value)] else es
  }

  /** Slot `qvid` with a quadspace in its slot `qsid`; a null or missing quadverse is an empty array first. */
  function PlacedSpace(verses: seq<Json>, qvid: int, qsid: int, space: Json): seq<Json> {
    if 0 <= qvid < |verses| && verses[qvid] != Null
    then verses[qvid := EditElems(verses[qvid], s => Placed(s, qsid, space))]
    else Placed(verses, qvid, Arr(Placed([], qsid, space)))
  }

  /** A workspace, or with WSID -1 a whole quadspace. */
  function NamedPath(c: Coord): seq<Tok> {
    if c.wsid == -1 then SpacePath(c.qvid, c.qsid) else WorkPath(c)
  }

  function SetField(v: Json, key: string, text: string): Json {
    if v.Obj? then Obj(Put(v.pairs, key, Str(text))) else v
  }

  function Step(doc: Json, op: Op): Json {
    match op
    case NewQuadspace(qvid, qsid, title, stockpage) =>
      EditElems(doc, s => PlacedSpace(s, qvid, qsid, NewSpace(qsid, title, stockpage)))
    case NewWorkspace(c, title, rest) =>
      Edit(doc, WorksPath(c), v => EditElems(v, s => Placed(s, c.wsid, Workspace(CutTitle(title, rest)))))
    case RemoveQuadspace(qvid, qsid) =>
      Edit(doc, SpacesPath(qvid), v => EditElems(v, s => Replaced(s, qsid, TOMBSTONE)))
    case RemoveWorkspace(c) =>
      Edit(doc, WorksPath(c), v => EditElems(v, s => Replaced(s, c.wsid, TOMBSTONE)))
    case AddChart(c, ticker) =>
      Edit(doc, ObjPath(c), v => EditElems(v, es => WithChart(es, ticker)))
    case IndicatorAdd(c, ticker, indicator) =>
      Edit(doc, ObjPath(c), v => EditElems(v, es => WithIndicator(es, ticker, indicator)))
    case IndicatorRemove(c, ticker, indicator) =>
      Edit(doc, ObjPath(c), v => EditElems(v, es => WithoutIndicator(es, ticker, indicator)))
    case RemoveChart(c, ticker) =>
      Edit(doc, ObjPath(c), v => EditElems(v, es => WithoutChart(es, ticker)))
    case SetName(c, title) =>
      if |title| > 24 then doc else Edit(doc, NamedPath(c), v => SetField(v, "title", title))
    case SetGrid(c, grid) =>
      Edit(doc, NamedPath(c), v => SetField(v, "grid", grid))
  }

  function Run(doc: Json, ops: seq<Op>): Json
    decreases |ops|
  {
    if ops == [] then doc else Run(Step(doc, ops[0]), ops[1..])
  }

  /** `qcache_create`. */
  function Created(qvid: int, qsid: int, title: string, stockpage: bool): Json {
    Step(Arr(Nulls(if qvid > 0 then qvid else 0)), NewQuadspace(qvid, qsid, title, stockpage))
  }
}
