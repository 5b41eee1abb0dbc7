/** What removing an indicator does to a chart's text, in terms of its fields: the ticker and the indicators,
    with '&' between them. */
module QCacheCuts {
  import CString
  import opened JsonValues
  import opened QCacheRuns
  import opened QCacheSpec
  import opened Sequences

  function Text(fs: seq<string>): string { CString.Join(fs, '&') }

  predicate Fielded(fs: seq<string>) {
    fs != [] && forall i :: 0 <= i < |fs| ==> '&' !in fs[i]
  }

  /** The fields of a text. */
  function Pieces(text: string): (fs: seq<string>)
    ensures Fielded(fs) && Text(fs) == text
    decreases |text|
  {
    var k := StrChr(text, '&');
    if k.None? then [text]
    else
      var rest := Pieces(text[k.value + 1..]);
      CString.JoinCons(text[..k.value], rest, '&');
      [text[..k.value]] + rest
  }

  /** What stands before field `j`, and behind it. */
  function Front(fs: seq<string>, j: nat): string
    requires j < |fs|
  {
    if j == 0 then "" else Text(fs[..j]) + "&"
  }

  function Back(fs: seq<string>, j: nat): string
    requires j < |fs|
  {
    if j + 1 == |fs| then "" else "&" + Text(fs[j + 1..])
  }

  lemma TextCons(fs: seq<string>)
    requires fs != []
    ensures Text(fs) == if |fs| == 1 then fs[0] else fs[0] + "&" + Text(fs[1..])
  {}

  lemma {:induction false} TextJoin(a: seq<string>, b: seq<string>)
    requires a != [] && b != []
    ensures Text(a + b) == Text(a) + "&" + Text(b)
  {
    hide Text;
    TextCons(a + b);
    TextCons(a);
    if |a| == 1 {
      assert (a + b)[1..] == b;
    } else {
      assert (a + b)[1..] == a[1..] + b;
      TextJoin(a[1..], b);
    }
  }

  lemma Around(fs: seq<string>, j: nat)
    requires j < |fs|
    ensures Text(fs) == Front(fs, j) + fs[j] + Back(fs, j)
  {
    hide Text;
    var rest := fs[j..];
    assert rest[1..] == fs[j + 1..];
    TextCons(rest);
    if j == 0 {
      assert rest == fs;
    } else {
      assert fs == fs[..j] + rest;
      TextJoin(fs[..j], rest);
    }
  }

  lemma Across(x: string, r: string, ind: string, q: nat)
    requires OccursAt(x + "&" + r, ind, q) && q <= |x| < q + |ind|
    ensures '&' in ind
  {
    assert (x + "&" + r)[q..q + |ind|][|x| - q] == '&';
  }

  /** An occurrence of a text without '&' lies on one side of a '&'. */
  lemma OnOneSide(x: string, r: string, ind: string, q: nat)
    requires '&' !in ind && OccursAt(x + "&" + r, ind, q)
    ensures OccursAt(x, ind, q) || (q > |x| && OccursAt(r, ind, q - |x| - 1))
  {
    var t := x + "&" + r;
    if q + |ind| <= |x| {
      assert x[q..q + |ind|] == t[q..q + |ind|];
    } else if q > |x| {
      assert r[q - |x| - 1..q - |x| - 1 + |ind|] == t[q..q + |ind|];
    } else {
      Across(x, r, ind, q);
    }
  }

  lemma Further(x: string, r: string, ind: string, q: nat)
    requires OccursAt(r, ind, q)
    ensures OccursAt(x + "&" + r, ind, |x| + 1 + q)
  {
    var t := x + "&" + r;
    assert t[|x| + 1 + q..|x| + 1 + q + |ind|] == r[q..q + |ind|];
  }

  lemma StrStrIs(h: string, n: string, p: nat)
    requires OccursAt(h, n, p) && forall i :: 0 <= i < p ==> !OccursAt(h, n, i)
    ensures StrStr(h, n) == Some(p)
  {
    hide OccursAt;
    var k := StrStr(h, n);
    assert k.Some?;
  }

  lemma FoundBy(h: string, n: string, p: nat)
    requires OccursAt(h, n, p)
    ensures StrStr(h, n).Some? && StrStr(h, n).value <= p
  {
    hide OccursAt;
  }

  lemma FoundLater(x: string, r: string, ind: string, q: nat)
    requires StrStr(r, ind) == Some(q)
    ensures StrStr(x + "&" + r, ind).Some? && StrStr(x + "&" + r, ind).value <= |x| + 1 + q
  {
    Further(x, r, ind, q);
    FoundBy(x + "&" + r, ind, |x| + 1 + q);
  }

  lemma NotBefore(x: string, r: string, ind: string, q: nat)
    requires '&' !in ind && StrStr(x, ind).None? && OccursAt(x + "&" + r, ind, q)
    ensures q > |x| && OccursAt(r, ind, q - |x| - 1)
    ensures StrStr(r, ind).Some? && q >= |x| + 1 + StrStr(r, ind).value
  {
    hide OccursAt, StrStr;
    OnOneSide(x, r, ind, q);
  }

  /** Behind a field that has none, the first occurrence is that of the rest. */
  lemma StrStrBehind(x: string, r: string, ind: string)
    requires '&' !in ind && StrStr(x, ind).None?
    ensures StrStr(r, ind).None? ==> StrStr(x + "&" + r, ind).None?
    ensures StrStr(r, ind).Some? ==>
              StrStr(x + "&" + r, ind).Some? && StrStr(x + "&" + r, ind).value == |x| + 1 + StrStr(r, ind).value
  {
    hide *;
    var k, m := StrStr(r, ind), StrStr(x + "&" + r, ind);
    if k.Some? { FoundLater(x, r, ind, k.value); }
    if m.Some? { NotBefore(x, r, ind, m.value); }
  }

  lemma StrStrFront(x: string, r: string, ind: string)
    requires '&' !in ind && StrStr(x, ind).Some?
    ensures StrStr(x + "&" + r, ind) == StrStr(x, ind)
  {
    var t, p := x + "&" + r, StrStr(x, ind).value;
    assert t[p..p + |ind|] == x[p..p + |ind|];
    hide StrStr;
    forall q: nat | q < p ensures !OccursAt(t, ind, q) {
      if OccursAt(t, ind, q) { OnOneSide(x, r, ind, q); }
    }
    StrStrIs(t, ind, p);
  }

  /** An indicator first occurs in the first field that has it. */
  lemma {:induction false} FirstPlace(fs: seq<string>, ind: string, j: nat)
    requires Fielded(fs) && '&' !in ind && j < |fs| && StrStr(fs[j], ind).Some?
    requires forall i :: 0 <= i < j ==> StrStr(fs[i], ind).None?
    ensures StrStr(Text(fs), ind) == Some(|Front(fs, j)| + StrStr(fs[j], ind).value)
  {
    hide StrStr, Text;
    TextCons(fs);
    if j == 0 {
      if |fs| > 1 { StrStrFront(fs[0], Text(fs[1..]), ind); }
    } else {
      FirstPlace(fs[1..], ind, j - 1);
      StrStrBehind(fs[0], Text(fs[1..]), ind);
      TextCons(fs[..j]);
      assert fs[..j][1..] == fs[1..][..j - 1];
    }
  }

  /** Where no field has it, the text has not. */
  lemma {:induction false} NoPlace(fs: seq<string>, ind: string)
    requires Fielded(fs) && '&' !in ind && forall i :: 0 <= i < |fs| ==> StrStr(fs[i], ind).None?
    ensures StrStr(Text(fs), ind) == None && CutIndicator(Text(fs), ind) == None
  {
    hide StrStr, Text;
    TextCons(fs);
    if |fs| == 1 {
    } else {
      NoPlace(fs[1..], ind);
      StrStrBehind(fs[0], Text(fs[1..]), ind);
    }
  }

  /** What becomes of the fields when an indicator is removed that first occurs at `o` in field `j`: a field that
      starts with it goes, unless it is the only one; of another one what stands before the occurrence runs
      together with the next field; and of the last one the character before the occurrence goes too. */
  function CutField(fs: seq<string>, j: nat, o: nat): seq<string>
    requires j < |fs| && o <= |fs[j]|
  {
    if o == 0 then (if |fs| == 1 then fs else Without(fs, j))
    else if j + 1 < |fs| then fs[..j] + [fs[j][..o] + fs[j + 1]] + fs[j + 2..]
    else fs[..j] + [fs[j][..o - 1]]
  }

  lemma CutLast(fs: seq<string>, ind: string, o: nat)
    requires Fielded(fs)
    requires var j := |fs| - 1; o <= |fs[j]| && StrStr(Text(fs), ind) == Some(|Front(fs, j)| + o)
    ensures CutIndicator(Text(fs), ind) == Some(Text(CutField(fs, |fs| - 1, o)))
  {
    hide StrStr, StrChr, Text;
    var j := |fs| - 1;
    var text, p := Text(fs), |Front(fs, j)| + o;
    Around(fs, j);
    assert text == Front(fs, j) + fs[j];
    assert text[p..] == fs[j][o..];
    assert '&' !in text[p..] && StrChr(text[p..], '&').None?;
    if o > 0 {
      var gs := fs[..j] + [fs[j][..o - 1]];
      Around(gs, j);
      assert gs[..j] == fs[..j] && Front(gs, j) == Front(fs, j) && Back(gs, j) == "";
      assert text[..p - 1] == Front(fs, j) + fs[j][..o - 1] == Text(gs);
      assert CutField(fs, j, o) == gs;
    } else if j > 0 {
      assert text[..p - 1] == Text(fs[..j]);
      assert Without(fs, j) == fs[..j] == CutField(fs, j, o);
    } else {
      assert CutField(fs, j, o) == fs && p == 0;
    }
  }

  lemma CutTo(text: string, ind: string, a: string, m: string, b: string)
    requires text == a + (m + ("&" + b)) && StrStr(text, ind) == Some(|a|) && '&' !in m
    ensures CutIndicator(text, ind) == Some(a + b)
  {
    hide StrStr, StrChr;
    assert text[|a|..] == m + ("&" + b);
    assert text[|a|..][..|m|] == m;
    StrChrIs(text[|a|..], '&', |m|);
    assert text[..|a|] == a && text[|a| + |m| + 1..] == b;
  }

  lemma CutFront(fs: seq<string>, j: nat)
    requires j + 1 < |fs|
    ensures Front(fs, j) + Text(fs[j + 1..]) == Text(Without(fs, j))
  {
    hide Text;
    if j == 0 {
      assert Without(fs, 0) == fs[1..];
    } else {
      TextJoin(fs[..j], fs[j + 1..]);
    }
  }

  lemma Regrouped(a: string, b: string, c: string, d: string)
    ensures a + b + ("" + c + d) == a + (b + c) + d
  {}

  /** Field `j` runs together with the next one. */
  lemma Merged(fs: seq<string>, j: nat, y: string)
    requires j + 1 < |fs|
    ensures Front(fs, j) + y + Text(fs[j + 1..]) == Text(fs[..j] + [y + fs[j + 1]] + fs[j + 2..])
  {
    hide Text;
    var gs, rest := fs[..j] + [y + fs[j + 1]] + fs[j + 2..], fs[j + 1..];
    Around(gs, j);
    Around(rest, 0);
    assert gs[..j] == fs[..j] && gs[j + 1..] == fs[j + 2..] == rest[1..];
    Regrouped(Front(fs, j), y, fs[j + 1], Back(rest, 0));
  }

  lemma CutInner(fs: seq<string>, ind: string, j: nat, o: nat)
    requires Fielded(fs) && j + 1 < |fs| && o <= |fs[j]| && StrStr(Text(fs), ind) == Some(|Front(fs, j)| + o)
    ensures CutIndicator(Text(fs), ind) == Some(Text(CutField(fs, j, o)))
  {
    hide StrStr, CutIndicator, Text, Front;
    var f, x, r := Front(fs, j), fs[j], Text(fs[j + 1..]);
    Around(fs, j);
    assert f + x + ("&" + r) == f + x[..o] + (x[o..] + ("&" + r));
    CutTo(Text(fs), ind, f + x[..o], x[o..], r);
    if o == 0 {
      assert f + x[..0] == f;
      CutFront(fs, j);
    } else {
      Merged(fs, j, x[..o]);
    }
  }

  /** Removing an indicator from a text, field by field. */
  lemma CutsField(fs: seq<string>, ind: string, j: nat)
    requires Fielded(fs) && '&' !in ind && j < |fs| && StrStr(fs[j], ind).Some?
    requires forall i :: 0 <= i < j ==> StrStr(fs[i], ind).None?
    ensures CutIndicator(Text(fs), ind) == Some(Text(CutField(fs, j, StrStr(fs[j], ind).value)))
  {
    hide StrStr, CutIndicator, Text, CutField;
    FirstPlace(fs, ind, j);
    var o := StrStr(fs[j], ind).value;
    if j + 1 == |fs| { CutLast(fs, ind, o); } else { CutInner(fs, ind, j, o); }
  }

  /** An indicator that occurs in no field before its own leaves the ticker and the other indicators in order. */
  lemma RemovesOne(fs: seq<string>, j: nat)
    requires Fielded(fs) && 0 < j < |fs| && forall i :: 0 <= i < j ==> StrStr(fs[i], fs[j]).None?
    ensures CutIndicator(Text(fs), fs[j]) == Some(Text(Without(fs, j)))
  {
    StrStrIs(fs[j], fs[j], 0);
    CutsField(fs, fs[j], j);
  }
}
