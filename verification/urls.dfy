/** `construir_urls`: from the listing URL, the two notice views it fetches
    (`ver=1`, the information view, and `ver=3`, the assets view). The URL is
    taken already split by `urlparse`, with its query already decoded into
    key/value pairs in order of appearance. */
module Urls {
  import opened Text

  datatype Param = Param(key: string, value: string)

  datatype UrlParts = UrlParts(scheme: string, netloc: string, path: string, query: seq<Param>)

  /** One entry of the dictionary `parse_qs` returns: a key and all its values. */
  datatype Entry = Entry(key: string, values: seq<string>)

  /** The query parameter that selects the view. */
  const ViewKey: string := "ver"

  // ---------------------------------------------------------------------------
  // Reference notions over the decoded pairs
  // ---------------------------------------------------------------------------

  function QueryKeys(q: seq<Param>): set<string>
  {
    set j | 0 <= j < |q| :: q[j].key
  }

  function EntryKeys(d: seq<Entry>): set<string>
  {
    set i | 0 <= i < |d| :: d[i].key
  }

  predicate DistinctKeys(d: seq<Entry>)
  {
    forall i, j :: 0 <= i < j < |d| ==> d[i].key != d[j].key
  }

  /** Every value given for `k`, in order. */
  function ValuesOf(q: seq<Param>, k: string): seq<string>
  {
    if q == [] then []
    else (if q[0].key == k then [q[0].value] else []) + ValuesOf(q[1..], k)
  }

  /** Where `k` first appears. */
  function FirstIndex(q: seq<Param>, k: string): (i: nat)
    requires k in QueryKeys(q)
    ensures i < |q| && q[i].key == k
    ensures forall j :: 0 <= j < i ==> q[j].key != k
  {
    if q[0].key == k then 0
    else
      QueryKeysCons(q);
      1 + FirstIndex(q[1..], k)
  }

  lemma {:induction false} ValuesOfSnoc(q: seq<Param>, p: Param, k: string)
    ensures ValuesOf(q + [p], k) == ValuesOf(q, k) + (if p.key == k then [p.value] else [])
    decreases |q|
  {
    if q == [] {
      assert [p][1..] == [];
    } else {
      assert (q + [p])[1..] == q[1..] + [p];
      ValuesOfSnoc(q[1..], p, k);
    }
  }

  lemma {:induction false} ValuesOfAbsent(q: seq<Param>, k: string)
    requires k !in QueryKeys(q)
    ensures ValuesOf(q, k) == []
    decreases |q|
  {
    if q != [] {
      QueryKeysCons(q);
      ValuesOfAbsent(q[1..], k);
    }
  }

  lemma ValuesOfHead(q: seq<Param>, k: string)
    requires k in QueryKeys(q)
    ensures |ValuesOf(q, k)| > 0 && ValuesOf(q, k)[0] == q[FirstIndex(q, k)].value
    decreases |q|
  {
    if q[0].key == k {
      assert ValuesOf(q, k) == [q[0].value] + ValuesOf(q[1..], k);
    } else {
      QueryKeysCons(q);
      ValuesOfHead(q[1..], k);
      assert ValuesOf(q, k) == ValuesOf(q[1..], k);
      assert FirstIndex(q, k) == 1 + FirstIndex(q[1..], k);
    }
  }

  lemma FirstIndexSnoc(q: seq<Param>, p: Param, k: string)
    requires k in QueryKeys(q)
    ensures k in QueryKeys(q + [p]) && FirstIndex(q + [p], k) == FirstIndex(q, k)
  {
    var i := FirstIndex(q, k);
    assert (q + [p])[i] == q[i];
    FirstIndexUnique(q + [p], k, i);
  }

  lemma FirstIndexUnique(q: seq<Param>, k: string, i: nat)
    requires i < |q| && q[i].key == k
    requires forall j :: 0 <= j < i ==> q[j].key != k
    ensures k in QueryKeys(q) && FirstIndex(q, k) == i
  {
    assert k in QueryKeys(q);
    var f := FirstIndex(q, k);
    assert !(f < i) && !(i < f);
  }

  lemma QueryKeysCons(q: seq<Param>)
    requires q != []
    ensures QueryKeys(q) == {q[0].key} + QueryKeys(q[1..])
  {
    forall x | x in QueryKeys(q) ensures x in {q[0].key} + QueryKeys(q[1..]) {
      var j :| 0 <= j < |q| && q[j].key == x;
      if j > 0 { assert q[1..][j - 1].key == x; }
    }
    forall x | x in QueryKeys(q[1..]) ensures x in QueryKeys(q) {
      var j :| 0 <= j < |q[1..]| && q[1..][j].key == x;
      assert q[j + 1].key == x;
    }
  }

  lemma EntryKeysCons(d: seq<Entry>)
    requires d != []
    ensures EntryKeys(d) == {d[0].key} + EntryKeys(d[1..])
  {
    forall x | x in EntryKeys(d) ensures x in {d[0].key} + EntryKeys(d[1..]) {
      var j :| 0 <= j < |d| && d[j].key == x;
      if j > 0 { assert d[1..][j - 1].key == x; }
    }
    forall x | x in EntryKeys(d[1..]) ensures x in EntryKeys(d) {
      var j :| 0 <= j < |d[1..]| && d[1..][j].key == x;
      assert d[j + 1].key == x;
    }
  }

  // ---------------------------------------------------------------------------
  // parse_qs
  // ---------------------------------------------------------------------------

  predicate NonEmptyValues(d: seq<Entry>)
  {
    forall i :: 0 <= i < |d| ==> |d[i].values| > 0
  }

  /** `dict.setdefault(k, []).append(v)` on an insertion-ordered dictionary:
      an existing key gets `v` appended to its values in place, a new key goes
      to the end. */
  function AddValue(d: seq<Entry>, k: string, v: string): (r: seq<Entry>)
    requires DistinctKeys(d)
    ensures DistinctKeys(r)
    ensures NonEmptyValues(d) ==> NonEmptyValues(r)
    ensures EntryKeys(r) == EntryKeys(d) + {k}
    ensures k in EntryKeys(d) ==> |r| == |d|
    ensures k !in EntryKeys(d) ==> r == d + [Entry(k, [v])]
    ensures forall i :: 0 <= i < |d| ==>
      r[i] == if d[i].key == k then Entry(k, d[i].values + [v]) else d[i]
  {
    if k in EntryKeys(d) then
      var r := seq(|d|, i requires 0 <= i < |d| =>
        if d[i].key == k then Entry(k, d[i].values + [v]) else d[i]);
      assert forall i :: 0 <= i < |d| ==> r[i].key == d[i].key;
      assert EntryKeys(r) == EntryKeys(d);
      r
    else
      var r := d + [Entry(k, [v])];
      assert forall i :: 0 <= i < |d| ==> d[i].key in EntryKeys(d);
      assert r[|d|].key == k;
      assert EntryKeys(r) == EntryKeys(d) + {k} by {
        forall x | x in EntryKeys(r) ensures x in EntryKeys(d) + {k} {
          var j :| 0 <= j < |r| && r[j].key == x;
          if j < |d| { assert d[j].key == x; }
        }
        forall x | x in EntryKeys(d) ensures x in EntryKeys(r) {
          var j :| 0 <= j < |d| && d[j].key == x;
          assert r[j].key == x;
        }
      }
      r
  }

  /** What `parse_qs` promises of its dictionary `d` for the pairs `q`: one
      entry per distinct key, keys in order of first appearance, and each
      entry holding every value of its key in order. */
  predicate ParsedFrom(d: seq<Entry>, q: seq<Param>)
  {
    && DistinctKeys(d)
    && EntryKeys(d) == QueryKeys(q)
    && (forall i :: 0 <= i < |d| ==> d[i].values == ValuesOf(q, d[i].key))
    && (forall i, j :: 0 <= i < j < |d| && d[i].key in QueryKeys(q) && d[j].key in QueryKeys(q) ==>
          FirstIndex(q, d[i].key) < FirstIndex(q, d[j].key))
  }

  /** `parse_qs` over already-decoded pairs: a left fold of `AddValue`. */
  function ParseQs(q: seq<Param>): (d: seq<Entry>)
    ensures DistinctKeys(d) && NonEmptyValues(d)
    decreases |q|
  {
    if q == [] then []
    else
      var p := q[|q| - 1];
      AddValue(ParseQs(q[..|q| - 1]), p.key, p.value)
  }

  /** The dictionary `parse_qs` builds is faithful to the pairs. */
  lemma {:induction false} ParseQsParsed(q: seq<Param>)
    ensures ParsedFrom(ParseQs(q), q)
    decreases |q|
  {
    if q != [] {
      var front := q[..|q| - 1];
      var p := q[|q| - 1];
      assert q == front + [p];
      ParseQsParsed(front);
      AddValueParsed(ParseQs(front), front, p);
    }
  }

  lemma QueryKeysSnoc(q: seq<Param>, p: Param)
    ensures QueryKeys(q + [p]) == QueryKeys(q) + {p.key}
  {
    forall x | x in QueryKeys(q + [p]) ensures x in QueryKeys(q) + {p.key} {
      var j :| 0 <= j < |q + [p]| && (q + [p])[j].key == x;
      if j < |q| { assert q[j].key == x; }
    }
    forall x | x in QueryKeys(q) ensures x in QueryKeys(q + [p]) {
      var j :| 0 <= j < |q| && q[j].key == x;
      assert (q + [p])[j].key == x;
    }
    assert (q + [p])[|q|].key == p.key;
  }

  /** Adding one more pair keeps the dictionary faithful to the pairs. */
  lemma AddValueParsed(d: seq<Entry>, q: seq<Param>, p: Param)
    requires ParsedFrom(d, q)
    ensures ParsedFrom(AddValue(d, p.key, p.value), q + [p])
  {
    QueryKeysSnoc(q, p);
    AddValueValues(d, q, p);
    AddValueOrder(d, q, p);
  }

  lemma AddValueValues(d: seq<Entry>, q: seq<Param>, p: Param)
    requires ParsedFrom(d, q)
    ensures var r := AddValue(d, p.key, p.value);
      forall i :: 0 <= i < |r| ==> r[i].values == ValuesOf(q + [p], r[i].key)
  {
    var r := AddValue(d, p.key, p.value);
    forall i | 0 <= i < |r| ensures r[i].values == ValuesOf(q + [p], r[i].key) {
      ValuesOfSnoc(q, p, r[i].key);
      if i == |d| {
        ValuesOfAbsent(q, p.key);
      }
    }
  }

  lemma AddValueOrder(d: seq<Entry>, q: seq<Param>, p: Param)
    requires ParsedFrom(d, q)
    ensures var r := AddValue(d, p.key, p.value);
      forall i, j :: 0 <= i < j < |r| && r[i].key in QueryKeys(q + [p]) && r[j].key in QueryKeys(q + [p]) ==>
        FirstIndex(q + [p], r[i].key) < FirstIndex(q + [p], r[j].key)
  {
    var q' := q + [p];
    forall x | x in QueryKeys(q) ensures x in QueryKeys(q') && FirstIndex(q', x) == FirstIndex(q, x) {
      FirstIndexSnoc(q, p, x);
    }
    if p.key in EntryKeys(d) {
      OrderKeptOld(d, q, p);
    } else {
      OrderKeptNew(d, q, p);
    }
  }

  lemma OrderKeptOld(d: seq<Entry>, q: seq<Param>, p: Param)
    requires ParsedFrom(d, q) && p.key in EntryKeys(d)
    requires forall x :: x in QueryKeys(q) ==> x in QueryKeys(q + [p]) && FirstIndex(q + [p], x) == FirstIndex(q, x)
    ensures var r := AddValue(d, p.key, p.value);
      forall i, j :: 0 <= i < j < |r| && r[i].key in QueryKeys(q + [p]) && r[j].key in QueryKeys(q + [p]) ==>
        FirstIndex(q + [p], r[i].key) < FirstIndex(q + [p], r[j].key)
  {
    var r := AddValue(d, p.key, p.value);
    assert forall i :: 0 <= i < |r| ==> r[i].key == d[i].key && d[i].key in EntryKeys(d);
  }

  lemma OrderKeptNew(d: seq<Entry>, q: seq<Param>, p: Param)
    requires ParsedFrom(d, q) && p.key !in EntryKeys(d)
    requires forall x :: x in QueryKeys(q) ==> x in QueryKeys(q + [p]) && FirstIndex(q + [p], x) == FirstIndex(q, x)
    ensures var r := AddValue(d, p.key, p.value);
      forall i, j :: 0 <= i < j < |r| && r[i].key in QueryKeys(q + [p]) && r[j].key in QueryKeys(q + [p]) ==>
        FirstIndex(q + [p], r[i].key) < FirstIndex(q + [p], r[j].key)
  {
    var q' := q + [p];
    var r := AddValue(d, p.key, p.value);
    assert forall j :: 0 <= j < |q| ==> q[j].key != p.key;
    FirstIndexUnique(q', p.key, |q|);
    assert forall i :: 0 <= i < |d| ==> r[i] == d[i] && d[i].key in EntryKeys(d);
    assert r[|d|].key == p.key;
  }

  // ---------------------------------------------------------------------------
  // construir_urls
  // ---------------------------------------------------------------------------

  /** The loop over the dictionary: `ver` is skipped, every other key keeps its
      first value. */
  function KeptParams(d: seq<Entry>): seq<Param>
    requires NonEmptyValues(d)
  {
    if d == [] then []
    else
      (if d[0].key == ViewKey then [] else [Param(d[0].key, d[0].values[0])])
      + KeptParams(d[1..])
  }

  function ParamKeys(ps: seq<Param>): set<string>
  {
    set i | 0 <= i < |ps| :: ps[i].key
  }

  /** Each entry of `d` holds exactly the values `q` gives its key. */
  predicate ValuesFaithful(d: seq<Entry>, q: seq<Param>)
  {
    forall i :: 0 <= i < |d| ==> d[i].key in QueryKeys(q) && d[i].values == ValuesOf(q, d[i].key)
  }

  /** The keys of `d` come in order of first appearance in `q`. */
  predicate OrderFaithful(d: seq<Entry>, q: seq<Param>)
  {
    && (forall i :: 0 <= i < |d| ==> d[i].key in QueryKeys(q))
    && (forall i, j :: 0 <= i < j < |d| && d[i].key in QueryKeys(q) && d[j].key in QueryKeys(q) ==>
          FirstIndex(q, d[i].key) < FirstIndex(q, d[j].key))
  }

  lemma ParamKeysEmpty(ps: seq<Param>)
    ensures ParamKeys(ps) == {} <==> ps == []
  {
    if ps != [] {
      assert ps[0].key in ParamKeys(ps);
    }
  }

  lemma ParamKeysAppend(a: seq<Param>, b: seq<Param>)
    ensures ParamKeys(a + b) == ParamKeys(a) + ParamKeys(b)
  {
    forall x | x in ParamKeys(a + b) ensures x in ParamKeys(a) + ParamKeys(b) {
      var j :| 0 <= j < |a + b| && (a + b)[j].key == x;
      if j >= |a| { assert b[j - |a|].key == x; } else { assert a[j].key == x; }
    }
    forall x | x in ParamKeys(a) ensures x in ParamKeys(a + b) {
      var j :| 0 <= j < |a| && a[j].key == x;
      assert (a + b)[j].key == x;
    }
    forall x | x in ParamKeys(b) ensures x in ParamKeys(a + b) {
      var j :| 0 <= j < |b| && b[j].key == x;
      assert (a + b)[|a| + j].key == x;
    }
  }

  /** The first kept parameter (if the head entry is kept) followed by the rest. */
  lemma KeptCons(d: seq<Entry>)
    requires d != [] && NonEmptyValues(d)
    ensures NonEmptyValues(d[1..])
    ensures KeptParams(d) == (if d[0].key == ViewKey then [] else [Param(d[0].key, d[0].values[0])]) + KeptParams(d[1..])
  {
    assert forall i :: 0 <= i < |d[1..]| ==> d[1..][i] == d[i + 1];
  }

  /** The kept keys are the dictionary's keys other than `ver`. */
  lemma {:induction false} KeptKeys(d: seq<Entry>)
    requires NonEmptyValues(d)
    ensures ParamKeys(KeptParams(d)) == EntryKeys(d) - {ViewKey}
    decreases |d|
  {
    if d != [] {
      KeptCons(d);
      KeptKeys(d[1..]);
      EntryKeysCons(d);
      var k := d[0].key;
      var head := if k == ViewKey then [] else [Param(k, d[0].values[0])];
      ParamKeysAppend(head, KeptParams(d[1..]));
      assert ParamKeys(head) == (if k == ViewKey then {} else {k}) by {
        if k != ViewKey { assert head[0].key == k; }
      }
    }
  }

  /** Every parameter of `ps` has a key from `q` and that key's first value. */
  predicate FirstValues(ps: seq<Param>, q: seq<Param>)
  {
    forall i :: 0 <= i < |ps| ==> ps[i].key in QueryKeys(q) && ps[i].value == q[FirstIndex(q, ps[i].key)].value
  }

  lemma FirstValuesAppend(a: seq<Param>, b: seq<Param>, q: seq<Param>)
    requires FirstValues(a, q) && FirstValues(b, q)
    ensures FirstValues(a + b, q)
  {
    assert forall i :: |a| <= i < |a + b| ==> (a + b)[i] == b[i - |a|];
  }

  /** Each kept parameter carries the first value its key was given. */
  lemma {:induction false} KeptValues(d: seq<Entry>, q: seq<Param>)
    requires NonEmptyValues(d) && ValuesFaithful(d, q)
    ensures FirstValues(KeptParams(d), q)
    decreases |d|
  {
    if d != [] {
      var k := d[0].key;
      var head := if k == ViewKey then [] else [Param(k, d[0].values[0])];
      var rest := KeptParams(d[1..]);
      assert KeptParams(d) == head + rest by { KeptCons(d); }
      assert FirstValues(rest, q) by {
        KeptCons(d);
        assert forall i :: 0 <= i < |d[1..]| ==> d[1..][i] == d[i + 1];
        KeptValues(d[1..], q);
      }
      assert FirstValues(head, q) by {
        ValuesOfHead(q, k);
      }
      FirstValuesAppend(head, rest, q);
    }
  }

  /** The keys of `ps` come from `q`, in order of first appearance there. */
  predicate InFirstOrder(ps: seq<Param>, q: seq<Param>)
  {
    && (forall i :: 0 <= i < |ps| ==> ps[i].key in QueryKeys(q))
    && (forall i, j :: 0 <= i < j < |ps| && ps[i].key in QueryKeys(q) && ps[j].key in QueryKeys(q) ==>
          FirstIndex(q, ps[i].key) < FirstIndex(q, ps[j].key))
  }

  /** Kept parameters keep the order of first appearance. */
  lemma {:induction false} KeptOrder(d: seq<Entry>, q: seq<Param>)
    requires NonEmptyValues(d) && OrderFaithful(d, q)
    ensures InFirstOrder(KeptParams(d), q)
    decreases |d|
  {
    if d != [] {
      var k := d[0].key;
      var head := if k == ViewKey then [] else [Param(k, d[0].values[0])];
      var rest := KeptParams(d[1..]);
      assert KeptParams(d) == head + rest by { KeptCons(d); }
      assert InFirstOrder(rest, q) by {
        KeptCons(d);
        assert forall i :: 0 <= i < |d[1..]| ==> d[1..][i] == d[i + 1];
        KeptOrder(d[1..], q);
      }
      assert k in QueryKeys(q);
      assert forall x :: x in ParamKeys(rest) ==> x in QueryKeys(q) && FirstIndex(q, k) < FirstIndex(q, x) by {
        KeptCons(d);
        KeptKeys(d[1..]);
        forall x | x in EntryKeys(d[1..]) ensures x in QueryKeys(q) && FirstIndex(q, k) < FirstIndex(q, x) {
          var j :| 0 <= j < |d[1..]| && d[1..][j].key == x;
          assert d[j + 1].key == x;
        }
      }
      OrderCons(head, rest, q, k);
    }
  }

  lemma OrderCons(head: seq<Param>, rest: seq<Param>, q: seq<Param>, k: string)
    requires |head| <= 1 && (head != [] ==> head[0].key == k)
    requires k in QueryKeys(q) && InFirstOrder(rest, q)
    requires forall x :: x in ParamKeys(rest) ==> x in QueryKeys(q) && FirstIndex(q, k) < FirstIndex(q, x)
    ensures InFirstOrder(head + rest, q)
  {
    if head == [] {
      assert head + rest == rest;
    } else {
      var all := head + rest;
      assert all[0].key == k;
      forall i | 1 <= i < |all| ensures all[i] == rest[i - 1] && all[i].key in ParamKeys(rest) {
        assert rest[i - 1].key in ParamKeys(rest);
      }
      forall i | 0 <= i < |all| ensures all[i].key in QueryKeys(q) {
      }
      forall i, j | 0 <= i < j < |all| ensures FirstIndex(q, all[i].key) < FirstIndex(q, all[j].key) {
        if i > 0 {
          assert all[i] == rest[i - 1] && all[j] == rest[j - 1];
        }
      }
    }
  }

  /** The parameters `construir_urls` keeps for the pairs `q`: every key but
      `ver`, once each, in order of first appearance, with its first value. */
  lemma KeptParamsSpec(q: seq<Param>)
    ensures var ps := KeptParams(ParseQs(q));
      && ParamKeys(ps) == QueryKeys(q) - {ViewKey}
      && (forall i :: 0 <= i < |ps| ==> ps[i].key != ViewKey && ps[i].key in QueryKeys(q))
      && FirstValues(ps, q)
      && InFirstOrder(ps, q)
  {
    var d := ParseQs(q);
    ParseQsParsed(q);
    var ps := KeptParams(d);
    KeptKeys(d);
    KeptValues(d, q);
    KeptOrder(d, q);
    assert forall i :: 0 <= i < |ps| ==> ps[i].key in ParamKeys(ps);
  }

  /** `f"{k}={v}"`. */
  function Render(p: Param): string
  {
    p.key + "=" + p.value
  }

  function RenderAll(ps: seq<Param>): (r: seq<string>)
    ensures |r| == |ps|
    ensures forall i :: 0 <= i < |ps| ==> r[i] == Render(ps[i])
  {
    if ps == [] then [] else [Render(ps[0])] + RenderAll(ps[1..])
  }

  /** `f"{p.scheme}://{p.netloc}{p.path}"`. */
  function BaseUrl(u: UrlParts): string
  {
    u.scheme + "://" + u.netloc + u.path
  }

  /** The kept parameters joined with `&`. */
  function Tail(u: UrlParts): string
  {
    Join("&", RenderAll(KeptParams(ParseQs(u.query))))
  }

  /** `construir_urls`: the information view and the assets view. They share the
      base URL and everything after the view digit, and differ only in that
      digit, `1` against `3`. */
  function ConstruirUrls(u: UrlParts): (urls: (string, string))
    ensures |urls.0| == |urls.1| > |BaseUrl(u)| + 5
    ensures urls.0[..|BaseUrl(u)|] == BaseUrl(u) && urls.1[..|BaseUrl(u)|] == BaseUrl(u)
    ensures urls.0[|BaseUrl(u)| + 5] == '1' && urls.1[|BaseUrl(u)| + 5] == '3'
    ensures forall i :: 0 <= i < |urls.0| && i != |BaseUrl(u)| + 5 ==> urls.0[i] == urls.1[i]
  {
    var base := BaseUrl(u);
    var rest := Tail(u);
    (base + "?ver=1&" + rest, base + "?ver=3&" + rest)
  }

  /** Splits a rendered parameter back at its first `=`. */
  function DecodeParam(s: string): Param
  {
    Param(Before(s, '='), After(s, '='))
  }

  lemma DecodeRender(p: Param)
    requires '=' !in p.key
    ensures DecodeParam(Render(p)) == p
  {
    var s := Render(p);
    assert s == p.key + ("=" + p.value);
    BeforeAppend(p.key, "=" + p.value, '=');
    AfterAppend(p.key, "=" + p.value, '=');
    assert Before("=" + p.value, '=') == [];
  }

  /** Pairs a URL can carry through `&`-splitting: no `&` anywhere and no `=`
      in a key. */
  predicate Separable(q: seq<Param>)
  {
    forall j :: 0 <= j < |q| ==> '&' !in q[j].key && '&' !in q[j].value && '=' !in q[j].key
  }

  /** Reading the information URL's query back: splitting it at `&` gives
      `ver=1` followed by the kept parameters, each of which splits at its first
      `=` into the key and its first value; with no kept parameter the query is
      `ver=1&` and splits into `ver=1` and an empty piece. */
  lemma QueryRoundTrip(u: UrlParts)
    requires '?' !in BaseUrl(u)
    requires Separable(u.query)
    ensures var ps := KeptParams(ParseQs(u.query));
      var parts := Split(After(ConstruirUrls(u).0, '?'), '&');
      && parts[0] == "ver=1"
      && (ps == [] ==> parts == ["ver=1", ""])
      && (ps != [] ==>
            (|parts| == |ps| + 1 && forall i :: 0 <= i < |ps| ==> DecodeParam(parts[i + 1]) == ps[i]))
  {
    var ps := KeptParams(ParseQs(u.query));
    var rest := Tail(u);
    assert After(ConstruirUrls(u).0, '?') == "ver=1" + ("&" + rest) by { InfoQuery(u); }
    var parts := Split("ver=1" + ("&" + rest), '&');
    assert parts == ["ver=1"] + Split(rest, '&') by { SplitAfterView(rest); }
    if ps == [] {
      assert rest == [];
    } else {
      TailPieces(u);
    }
  }

  /** The joined parameters split back into the rendered parameters, each of
      which decodes to its parameter. */
  lemma TailPieces(u: UrlParts)
    requires Separable(u.query)
    requires KeptParams(ParseQs(u.query)) != []
    ensures var ps := KeptParams(ParseQs(u.query));
      var pieces := Split(Tail(u), '&');
      |pieces| == |ps| && forall i :: 0 <= i < |ps| ==> DecodeParam(pieces[i]) == ps[i]
  {
    var ps := KeptParams(ParseQs(u.query));
    var rendered := RenderAll(ps);
    RenderedSeparable(u.query);
    SplitJoin(rendered, '&');
    forall i | 0 <= i < |ps| ensures DecodeParam(rendered[i]) == ps[i] {
      DecodeRender(ps[i]);
    }
  }

  /** The information URL's query string is `ver=1&` and the joined parameters. */
  lemma InfoQuery(u: UrlParts)
    requires '?' !in BaseUrl(u)
    ensures After(ConstruirUrls(u).0, '?') == "ver=1" + ("&" + Tail(u))
  {
    var base := BaseUrl(u);
    var rest := Tail(u);
    assert ConstruirUrls(u).0 == base + ("?" + ("ver=1" + ("&" + rest)));
    AfterAppend(base, "?" + ("ver=1" + ("&" + rest)), '?');
  }

  lemma SplitAfterView(rest: string)
    ensures Split("ver=1" + ("&" + rest), '&') == ["ver=1"] + Split(rest, '&')
  {
    SplitCons("ver=1", rest, '&');
  }

  /** Splitting `a` + separator + `rest` yields `a`, then the pieces of `rest`. */
  lemma SplitCons(a: string, rest: string, c: char)
    requires c !in a
    ensures Split(a + ([c] + rest), c) == [a] + Split(rest, c)
  {
    var s := a + ([c] + rest);
    BeforeAppend(a, [c] + rest, c);
    AfterAppend(a, [c] + rest, c);
    assert Before([c] + rest, c) == [];
    assert After([c] + rest, c) == rest;
    assert s[|a|] == c;
    assert c in s;
    assert Before(s, c) == a;
    assert Split(s, c) == [Before(s, c)] + Split(After(s, c), c);
  }

  /** Kept parameters of separable pairs render without `&` and keep `=` out of
      their keys. */
  lemma RenderedSeparable(q: seq<Param>)
    requires Separable(q)
    ensures var ps := KeptParams(ParseQs(q));
      forall i :: 0 <= i < |ps| ==> '&' !in Render(ps[i]) && '=' !in ps[i].key
  {
    var d := ParseQs(q);
    KeptParamsSpec(q);
    var ps := KeptParams(d);
    forall i | 0 <= i < |ps| ensures '&' !in Render(ps[i]) && '=' !in ps[i].key {
      var k := ps[i].key;
      var j := FirstIndex(q, k);
      assert '&' !in q[j].value && '&' !in k;
      assert Render(ps[i]) == k + ("=" + ps[i].value);
    }
  }

  /** With no key other than `ver`, the information URL ends in `ver=1&`. */
  lemma OnlyViewKey(u: UrlParts)
    requires QueryKeys(u.query) <= {ViewKey}
    ensures ConstruirUrls(u).0 == BaseUrl(u) + "?ver=1&"
    ensures ConstruirUrls(u).1 == BaseUrl(u) + "?ver=3&"
  {
    KeptParamsSpec(u.query);
    var d := ParseQs(u.query);
    var ps := KeptParams(d);
    ParamKeysEmpty(ps);
  }
}
