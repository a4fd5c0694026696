/** `extraer_datos_subasta` once fetching and HTML parsing are taken out: a fold
    over the pages of the two notice views. Each page is either a failure
    (skipped) or the table rows that have both a header and a data cell, the
    header already stripped and lower-cased and the value stripped. */
module Extraction {
  import opened Text
  import opened Results
  import NumberText
  import Urls

  // ---------------------------------------------------------------------------
  // CAMPOS
  // ---------------------------------------------------------------------------

  const Identificador: string := "Identificador"
  const FechaConclusion: string := "Fecha de conclusión"
  const CantidadReclamada: string := "Cantidad reclamada"
  const ValorSubasta: string := "Valor subasta"
  const Tasacion: string := "Tasación"
  const TramosEntrePujas: string := "Tramos entre pujas"
  const ImporteDeposito: string := "Importe del depósito"
  const Direccion: string := "Dirección"
  const ReferenciaCatastral: string := "Referencia catastral"

  /** The nine keys of every result, in the source's order. */
  const Campos: seq<string> := [
    Identificador, FechaConclusion, CantidadReclamada, ValorSubasta, Tasacion,
    TramosEntrePujas, ImporteDeposito, Direccion, ReferenciaCatastral
  ]

  const CampoSet: set<string> := set c | c in Campos

  /** The fields stored through `limpiar_entero_por_texto`. */
  const NumericCampos: set<string> :=
    {CantidadReclamada, ValorSubasta, Tasacion, TramosEntrePujas, ImporteDeposito}

  // ---------------------------------------------------------------------------
  // Pages, rows and the classification chain
  // ---------------------------------------------------------------------------

  /** One table row: `campo` is the header text, `valor` the data text. */
  datatype Row = Row(campo: string, valor: string)

  /** A fetched page: `None` when the request or the parse failed. */
  type Page = Option<seq<Row>>

  /** What a branch of the chain does with the row's value. */
  datatype Action =
    | Store(field: string)   // fill `field`, but only while it is still empty
    | Append                 // add the value to the address fragments
    | AppendPostal           // add "CP " and the value to the address fragments

  /** One branch: it matches when the header contains any of the patterns. */
  datatype Rule = Rule(patterns: seq<string>, action: Action)

  /** The `if`/`elif` chain, in the source's order. */
  const Rules: seq<Rule> := [
    Rule(["identificador"], Store(Identificador)),
    Rule(["conclusión"], Store(FechaConclusion)),
    Rule(["cantidad reclamada"], Store(CantidadReclamada)),
    Rule(["valor subasta"], Store(ValorSubasta)),
    Rule(["tasación"], Store(Tasacion)),
    Rule(["tramos entre pujas"], Store(TramosEntrePujas)),
    Rule(["depósito"], Store(ImporteDeposito)),
    Rule(["dirección", "ubicación", "domicilio", "bien"], Append),
    Rule(["código postal"], AppendPostal),
    Rule(["localidad", "municipio"], Append),
    Rule(["provincia"], Append),
    Rule(["referencia catastral", "catastral"], Store(ReferenciaCatastral))
  ]

  /** The index of the address branch (`dirección`/`ubicación`/`domicilio`/`bien`). */
  const AddressRule: nat := 7
  /** The index of the postal-code branch. */
  const PostalRule: nat := 8

  predicate Matches(campo: string, patterns: seq<string>)
  {
    exists i :: 0 <= i < |patterns| && Contains(campo, patterns[i])
  }

  /** The state of the loop: the result dictionary and the address fragments. */
  datatype Scan = Scan(resultados: map<string, string>, componentes: seq<string>)

  /** A well-formed state has exactly the nine keys. */
  predicate Valid(s: Scan)
  {
    s.resultados.Keys == CampoSet
  }

  /** A branch's condition: the header matches, and a storing branch also needs
      its field still empty (`and not resultados[...]`). */
  predicate Fires(r: Rule, campo: string, res: map<string, string>)
  {
    Matches(campo, r.patterns) && (r.action.Store? ==> r.action.field in res && res[r.action.field] == "")
  }

  /** The first branch from `from` on whose condition holds. */
  function FirstFiring(from: nat, campo: string, res: map<string, string>): (o: Option<nat>)
    requires from <= |Rules|
    ensures o.Some? ==> from <= o.value < |Rules| && Fires(Rules[o.value], campo, res)
    ensures o.Some? ==> forall i :: from <= i < o.value ==> !Fires(Rules[i], campo, res)
    ensures o.None? ==> forall i :: from <= i < |Rules| ==> !Fires(Rules[i], campo, res)
    decreases |Rules| - from
  {
    if from == |Rules| then None
    else if Fires(Rules[from], campo, res) then Some(from)
    else FirstFiring(from + 1, campo, res)
  }

  /** What a storing branch writes: numeric fields go through the cleaner. */
  function Stored(field: string, valor: string): string
  {
    if field in NumericCampos then NumberText.CleanInteger(valor) else valor
  }

  function Apply(a: Action, valor: string, s: Scan): Scan
  {
    match a
    case Store(f) => s.(resultados := s.resultados[f := Stored(f, valor)])
    case Append => s.(componentes := s.componentes + [valor])
    case AppendPostal => s.(componentes := s.componentes + ["CP " + valor])
  }

  /** One row through the chain: the first branch whose condition holds acts,
      and a row no branch takes changes nothing. */
  function ClassifyRow(s: Scan, row: Row): (r: Scan)
    ensures r.resultados.Keys == s.resultados.Keys
    ensures forall k :: k in s.resultados && s.resultados[k] != "" ==> r.resultados[k] == s.resultados[k]
    ensures s.componentes <= r.componentes && |r.componentes| <= |s.componentes| + 1
  {
    match FirstFiring(0, row.campo, s.resultados)
    case None => s
    case Some(i) => Apply(Rules[i].action, row.valor, s)
  }

  /** The rows of one page, in order. */
  function ScanRows(s: Scan, rows: seq<Row>): (r: Scan)
    ensures r.resultados.Keys == s.resultados.Keys
    ensures forall k :: k in s.resultados && s.resultados[k] != "" ==> r.resultados[k] == s.resultados[k]
    ensures s.componentes <= r.componentes && |r.componentes| <= |s.componentes| + |rows|
    decreases |rows|
  {
    if rows == [] then s else ScanRows(ClassifyRow(s, rows[0]), rows[1..])
  }

  /** The pages in order; a failed page is skipped. */
  function ScanPages(s: Scan, pages: seq<Page>): (r: Scan)
    ensures r.resultados.Keys == s.resultados.Keys
    ensures forall k :: k in s.resultados && s.resultados[k] != "" ==> r.resultados[k] == s.resultados[k]
    ensures s.componentes <= r.componentes
    decreases |pages|
  {
    if pages == [] then s
    else
      var s' := match pages[0] case None => s case Some(rows) => ScanRows(s, rows);
      ScanPages(s', pages[1..])
  }

  /** `{campo: '' for campo in CAMPOS}` and no fragments. */
  function Initial(): (s: Scan)
    ensures Valid(s)
  {
    Scan(map c | c in CampoSet :: "", [])
  }

  /** The fragments the address join keeps: the non-empty ones, in order. */
  function NonEmpty(cs: seq<string>): (r: seq<string>)
    ensures forall i :: 0 <= i < |r| ==> r[i] != ""
    ensures |r| <= |cs|
  {
    if cs == [] then []
    else (if cs[0] == "" then [] else [cs[0]]) + NonEmpty(cs[1..])
  }

  /** `resultados['Dirección'] = ', '.join(...)` after the loop. */
  function Finish(s: Scan): (r: map<string, string>)
    ensures r.Keys == s.resultados.Keys + {Direccion}
    ensures forall k :: k in s.resultados && k != Direccion ==> r[k] == s.resultados[k]
    ensures r[Direccion] == Join(", ", NonEmpty(s.componentes))
  {
    s.resultados[Direccion := Join(", ", NonEmpty(s.componentes))]
  }

  /** `extraer_datos_subasta` over the fetched pages, in fetch order. */
  function ExtraerDatos(pages: seq<Page>): (r: map<string, string>)
    ensures r.Keys == CampoSet
  {
    ScanPagesValid(Initial(), pages);
    Finish(ScanPages(Initial(), pages))
  }

  /** The whole routine: derive the two view URLs, fetch each (the fetch is a
      parameter; a failure is `None`), and fold. */
  function ExtraerDatosSubasta(u: Urls.UrlParts, fetch: string -> Page): (r: map<string, string>)
    ensures r.Keys == CampoSet
  {
    var urls := Urls.ConstruirUrls(u);
    ExtraerDatos([fetch(urls.0), fetch(urls.1)])
  }

  // ---------------------------------------------------------------------------
  // The result always has the nine keys
  // ---------------------------------------------------------------------------

  lemma StoreFieldsAreCampos()
    ensures forall i :: 0 <= i < |Rules| && Rules[i].action.Store? ==> Rules[i].action.field in CampoSet
    ensures forall i :: 0 <= i < |Rules| && Rules[i].action.Store? ==> Rules[i].action.field != Direccion
  {
  }

  /** A storing branch only fires on a key that is present, so no row adds
      or removes a key. */
  lemma ClassifyRowKeys(s: Scan, row: Row)
    ensures ClassifyRow(s, row).resultados.Keys == s.resultados.Keys
  {
  }

  lemma ClassifyRowValid(s: Scan, row: Row)
    requires Valid(s)
    ensures Valid(ClassifyRow(s, row))
  {
    ClassifyRowKeys(s, row);
  }

  lemma {:induction false} ScanRowsValid(s: Scan, rows: seq<Row>)
    requires Valid(s)
    ensures Valid(ScanRows(s, rows))
    decreases |rows|
  {
    if rows != [] {
      ClassifyRowValid(s, rows[0]);
      ScanRowsValid(ClassifyRow(s, rows[0]), rows[1..]);
    }
  }

  lemma {:induction false} ScanPagesValid(s: Scan, pages: seq<Page>)
    requires Valid(s)
    ensures Valid(ScanPages(s, pages))
    decreases |pages|
  {
    if pages != [] {
      var s' := match pages[0] case None => s case Some(rows) => ScanRows(s, rows);
      if pages[0].Some? { ScanRowsValid(s, pages[0].value); }
      ScanPagesValid(s', pages[1..]);
    }
  }

  // ---------------------------------------------------------------------------
  // The fold over pages is the fold over their rows
  // ---------------------------------------------------------------------------

  /** The rows of the pages that were fetched, page after page. */
  function Flatten(pages: seq<Page>): (rows: seq<Row>)
    ensures (forall i :: 0 <= i < |pages| ==> pages[i].None?) ==> rows == []
    decreases |pages|
  {
    if pages == [] then []
    else (match pages[0] case None => [] case Some(r) => r) + Flatten(pages[1..])
  }

  lemma {:induction false} ScanRowsAppend(s: Scan, a: seq<Row>, b: seq<Row>)
    ensures ScanRows(s, a + b) == ScanRows(ScanRows(s, a), b)
    decreases |a|
  {
    if a != [] {
      assert (a + b)[0] == a[0];
      assert (a + b)[1..] == a[1..] + b;
      ScanRowsAppend(ClassifyRow(s, a[0]), a[1..], b);
    } else {
      assert a + b == b;
    }
  }

  /** Skipping failed pages and walking the others is one walk over all rows. */
  lemma {:induction false} ScanPagesFlatten(s: Scan, pages: seq<Page>)
    ensures ScanPages(s, pages) == ScanRows(s, Flatten(pages))
    decreases |pages|
  {
    if pages != [] {
      var first := match pages[0] case None => [] case Some(r) => r;
      var s' := match pages[0] case None => s case Some(rows) => ScanRows(s, rows);
      assert ScanRows(s, first) == s';
      ScanPagesFlatten(s', pages[1..]);
      ScanRowsAppend(s, first, Flatten(pages[1..]));
    }
  }

  lemma {:induction false} ScanPagesAppend(s: Scan, a: seq<Page>, b: seq<Page>)
    ensures ScanPages(s, a + b) == ScanPages(ScanPages(s, a), b)
    decreases |a|
  {
    if a != [] {
      assert (a + b)[0] == a[0];
      assert (a + b)[1..] == a[1..] + b;
      var s' := match a[0] case None => s case Some(rows) => ScanRows(s, rows);
      ScanPagesAppend(s', a[1..], b);
    } else {
      assert a + b == b;
    }
  }

  /** When every request fails, every field is the empty string. */
  lemma AllPagesFailed(pages: seq<Page>)
    requires forall i :: 0 <= i < |pages| ==> pages[i].None?
    ensures forall k :: k in ExtraerDatos(pages) ==> ExtraerDatos(pages)[k] == ""
  {
    ScanPagesFlatten(Initial(), pages);
    assert Join(", ", NonEmpty([])) == "";
  }

  // ---------------------------------------------------------------------------
  // First value wins
  // ---------------------------------------------------------------------------

  /** A filled field keeps its value through a row, and no row writes the
      address key. */
  lemma ClassifyRowKeeps(s: Scan, row: Row, k: string)
    requires Valid(s) && k in CampoSet
    requires s.resultados[k] != "" || k == Direccion
    ensures ClassifyRow(s, row).resultados[k] == s.resultados[k]
  {
    StoreFieldsAreCampos();
  }

  lemma {:induction false} ScanRowsKeeps(s: Scan, rows: seq<Row>, k: string)
    requires Valid(s) && k in CampoSet
    requires s.resultados[k] != "" || k == Direccion
    ensures Valid(ScanRows(s, rows))
    ensures ScanRows(s, rows).resultados[k] == s.resultados[k]
    decreases |rows|
  {
    ScanRowsValid(s, rows);
    if rows != [] {
      ClassifyRowKeeps(s, rows[0], k);
      ClassifyRowValid(s, rows[0]);
      ScanRowsKeeps(ClassifyRow(s, rows[0]), rows[1..], k);
    }
  }

  /** During the fold the address key stays empty: it is only set at the end. */
  lemma DireccionUntouched(pages: seq<Page>)
    ensures Direccion in ScanPages(Initial(), pages).resultados
    ensures ScanPages(Initial(), pages).resultados[Direccion] == ""
  {
    ScanPagesFlatten(Initial(), pages);
    ScanRowsKeeps(Initial(), Flatten(pages), Direccion);
  }

  /** Once a field has a value after the first `n` pages, later pages cannot
      change it: the first non-empty value wins. */
  lemma FirstValueWins(pages: seq<Page>, n: nat, k: string)
    requires n <= |pages| && k in CampoSet && k != Direccion
    requires Valid(ScanPages(Initial(), pages[..n]))
    requires ScanPages(Initial(), pages[..n]).resultados[k] != ""
    ensures ExtraerDatos(pages)[k] == ScanPages(Initial(), pages[..n]).resultados[k]
  {
    var mid := ScanPages(Initial(), pages[..n]);
    assert pages == pages[..n] + pages[n..];
    ScanPagesAppend(Initial(), pages[..n], pages[n..]);
    ScanPagesFlatten(mid, pages[n..]);
    ScanRowsKeeps(mid, Flatten(pages[n..]), k);
  }

  // ---------------------------------------------------------------------------
  // Where a stored value comes from
  // ---------------------------------------------------------------------------

  /** The header names field `k` through one of its storing branches. */
  predicate MatchesField(k: string, campo: string)
  {
    exists i :: 0 <= i < |Rules| && Rules[i].action == Store(k) && Matches(campo, Rules[i].patterns)
  }

  /** `v` is empty or was written from a row of `rows` whose header names `k`. */
  predicate Origin(k: string, v: string, rows: seq<Row>)
  {
    v == "" || exists i :: 0 <= i < |rows| && MatchesField(k, rows[i].campo) && v == Stored(k, rows[i].valor)
  }

  lemma OriginExtend(k: string, v: string, rows: seq<Row>, more: seq<Row>)
    requires Origin(k, v, rows)
    ensures Origin(k, v, rows + more)
  {
    if v != "" {
      var i :| 0 <= i < |rows| && MatchesField(k, rows[i].campo) && v == Stored(k, rows[i].valor);
      assert (rows + more)[i] == rows[i];
    }
  }

  lemma ClassifyRowOrigin(s: Scan, seen: seq<Row>, row: Row, k: string)
    requires k in s.resultados
    requires Origin(k, s.resultados[k], seen)
    ensures k in ClassifyRow(s, row).resultados
    ensures Origin(k, ClassifyRow(s, row).resultados[k], seen + [row])
  {
    ClassifyRowKeys(s, row);
    OriginExtend(k, s.resultados[k], seen, [row]);
    var o := FirstFiring(0, row.campo, s.resultados);
    if o.Some? && Rules[o.value].action == Store(k) {
      assert (seen + [row])[|seen|] == row;
      assert MatchesField(k, row.campo);
    }
  }

  lemma {:induction false} ScanRowsOrigin(s: Scan, seen: seq<Row>, rows: seq<Row>, k: string)
    requires k in s.resultados
    requires Origin(k, s.resultados[k], seen)
    ensures k in ScanRows(s, rows).resultados
    ensures Origin(k, ScanRows(s, rows).resultados[k], seen + rows)
    decreases |rows|
  {
    if rows == [] {
      assert seen + rows == seen;
    } else {
      var s' := ClassifyRow(s, rows[0]);
      ClassifyRowOrigin(s, seen, rows[0], k);
      ScanRowsOrigin(s', seen + [rows[0]], rows[1..], k);
      assert seen + [rows[0]] + rows[1..] == seen + rows;
    }
  }

  /** Every field but the address is empty or the (cleaned, for numeric
      fields) value of a fetched row whose header names that field. */
  lemma ExtraerProvenance(pages: seq<Page>, k: string)
    requires k in CampoSet && k != Direccion
    ensures Origin(k, ExtraerDatos(pages)[k], Flatten(pages))
  {
    ScanPagesFlatten(Initial(), pages);
    ScanRowsOrigin(Initial(), [], Flatten(pages), k);
    assert [] + Flatten(pages) == Flatten(pages);
  }

  /** Branch `j` stores, its pattern is the first of the chain the header
      matches, and what it would store is non-empty. */
  predicate FillsFirst(row: Row, j: nat)
  {
    j < |Rules| && Rules[j].action.Store? && Matches(row.campo, Rules[j].patterns)
    && (forall m :: 0 <= m < j ==> !Matches(row.campo, Rules[m].patterns))
    && Stored(Rules[j].action.field, row.valor) != ""
  }

  /** Such a row, met in any state, leaves its field non-empty: either the
      field was filled already, or branch `j` is the first to fire. */
  lemma ClassifyRowFills(s: Scan, row: Row, j: nat)
    requires Valid(s) && FillsFirst(row, j)
    ensures var k := Rules[j].action.field;
      k in ClassifyRow(s, row).resultados && ClassifyRow(s, row).resultados[k] != ""
  {
    var k := Rules[j].action.field;
    StoreFieldsAreCampos();
    if s.resultados[k] == "" {
      RowTakenBy(s, row, j);
    }
  }

  /** The converse of provenance: a fetched row that reaches field `k`'s
      branch first with a non-empty value leaves `k` non-empty in the result
      (with this row's value or an earlier one). */
  lemma ExtraerFillsField(pages: seq<Page>, i: nat, j: nat)
    requires i < |Flatten(pages)| && FillsFirst(Flatten(pages)[i], j)
    ensures var k := Rules[j].action.field; k in ExtraerDatos(pages) && ExtraerDatos(pages)[k] != ""
  {
    var rows := Flatten(pages);
    StoreFieldsAreCampos();
    ScanPagesFlatten(Initial(), pages);
    assert rows == rows[..i] + rows[i..];
    ScanRowsAppend(Initial(), rows[..i], rows[i..]);
    var mid := ScanRows(Initial(), rows[..i]);
    assert rows[i..][0] == rows[i] && rows[i..][1..] == rows[i + 1..];
    assert ScanRows(mid, rows[i..]) == ScanRows(ClassifyRow(mid, rows[i]), rows[i + 1..]);
    ClassifyRowFills(mid, rows[i], j);
  }

  /** So the numeric fields never carry a dot, a comma or a space. */
  lemma NumericFieldsCleaned(pages: seq<Page>, k: string)
    requires k in NumericCampos
    ensures var v := ExtraerDatos(pages)[k]; '.' !in v && ',' !in v && ' ' !in v
  {
    ExtraerProvenance(pages, k);
  }

  // ---------------------------------------------------------------------------
  // Address fragments
  // ---------------------------------------------------------------------------

  /** The first address branch (a non-storing one) from `from` on whose
      header patterns match. Whether a storing branch fires depends on the
      fields filled so far; whether an address branch fires does not. */
  function AddressBranch(campo: string, from: nat): (o: Option<nat>)
    requires from <= |Rules|
    ensures o.Some? ==> from <= o.value < |Rules| && !Rules[o.value].action.Store?
                        && Matches(campo, Rules[o.value].patterns)
    ensures o.Some? ==> forall i :: from <= i < o.value && !Rules[i].action.Store? ==> !Matches(campo, Rules[i].patterns)
    ensures o.None? ==> forall i :: from <= i < |Rules| && !Rules[i].action.Store? ==> !Matches(campo, Rules[i].patterns)
    decreases |Rules| - from
  {
    if from == |Rules| then None
    else if !Rules[from].action.Store? && Matches(campo, Rules[from].patterns) then Some(from)
    else AddressBranch(campo, from + 1)
  }

  /** `f` is what the address branch that can take `row` adds for it. */
  predicate AddressFragment(row: Row, f: string)
  {
    var o := AddressBranch(row.campo, 0);
    o.Some? && f == (if Rules[o.value].action.AppendPostal? then "CP " + row.valor else row.valor)
  }

  /** A header that reaches an address branch and matches no storing branch
      placed before it: such a row is taken by that address branch whatever
      has been filled. */
  predicate AlwaysAddress(row: Row)
  {
    var o := AddressBranch(row.campo, 0);
    o.Some? && forall i :: 0 <= i < o.value && Rules[i].action.Store? ==> !Matches(row.campo, Rules[i].patterns)
  }

  /** `added` lists, in order, the address fragment of each row of a
      subsequence of `rows` that keeps every row `AlwaysAddress` holds of. */
  predicate Traced(added: seq<string>, rows: seq<Row>)
    decreases |rows|
  {
    if rows == [] then added == []
    else (!AlwaysAddress(rows[0]) && Traced(added, rows[1..]))
         || (|added| > 0 && AddressFragment(rows[0], added[0]) && Traced(added[1..], rows[1..]))
  }

  /** When the first branch to fire is an address branch, it is the first
      address branch that matches; and when no storing branch matches, the
      two coincide. */
  lemma {:induction false} AddressBranchFires(campo: string, res: map<string, string>, from: nat)
    requires from <= |Rules|
    ensures var o := FirstFiring(from, campo, res);
      o.Some? && !Rules[o.value].action.Store? ==> AddressBranch(campo, from) == o
    ensures (forall i :: from <= i < |Rules| && Rules[i].action.Store? ==> !Matches(campo, Rules[i].patterns))
            ==> AddressBranch(campo, from) == FirstFiring(from, campo, res)
    decreases |Rules| - from
  {
    if from < |Rules| {
      AddressBranchFires(campo, res, from + 1);
    }
  }

  /** Whatever has been filled, such a row is taken by its address branch. */
  lemma AlwaysAddressTaken(s: Scan, row: Row)
    requires AlwaysAddress(row)
    ensures ClassifyRow(s, row) == Apply(Rules[AddressBranch(row.campo, 0).value].action, row.valor, s)
  {
    var a := AddressBranch(row.campo, 0).value;
    forall j | 0 <= j < a
      ensures !Fires(Rules[j], row.campo, s.resultados)
    {
    }
    RowTakenBy(s, row, a);
  }

  /** A row adds its address fragment or nothing, and a row `AlwaysAddress`
      holds of always adds it. */
  lemma ClassifyRowFragments(s: Scan, row: Row)
    ensures var c := ClassifyRow(s, row).componentes;
      (c == s.componentes && !AlwaysAddress(row))
      || (|c| == |s.componentes| + 1 && c[..|s.componentes|] == s.componentes && AddressFragment(row, c[|s.componentes|]))
  {
    var o := FirstFiring(0, row.campo, s.resultados);
    AddressBranchFires(row.campo, s.resultados, 0);
    if AlwaysAddress(row) {
      AlwaysAddressTaken(s, row);
    }
    if o.Some? && !Rules[o.value].action.Store? {
      var c := ClassifyRow(s, row).componentes;
      assert c[..|s.componentes|] == s.componentes;
    }
  }

  lemma {:induction false} ScanRowsFragments(s: Scan, rows: seq<Row>)
    ensures var c := ScanRows(s, rows).componentes;
      s.componentes <= c && Traced(c[|s.componentes|..], rows)
    decreases |rows|
  {
    var c := ScanRows(s, rows).componentes;
    if rows == [] {
      assert c[|s.componentes|..] == [];
    } else {
      var s' := ClassifyRow(s, rows[0]);
      ClassifyRowFragments(s, rows[0]);
      ScanRowsFragments(s', rows[1..]);
      if s'.componentes == s.componentes {
        assert Traced(c[|s.componentes|..], rows);
      } else {
        var added := c[|s.componentes|..];
        assert added[0] == s'.componentes[|s.componentes|];
        assert added[1..] == c[|s'.componentes|..];
        assert Traced(added, rows);
      }
    }
  }

  /** How many rows only address branches match. */
  function CountAlwaysAddress(rows: seq<Row>): nat
    decreases |rows|
  {
    if rows == [] then 0 else (if AlwaysAddress(rows[0]) then 1 else 0) + CountAlwaysAddress(rows[1..])
  }

  /** A traced fragment list has at least one fragment per `AlwaysAddress` row
      and at most one per row. */
  lemma {:induction false} TracedCovers(added: seq<string>, rows: seq<Row>)
    requires Traced(added, rows)
    ensures CountAlwaysAddress(rows) <= |added| <= |rows|
    decreases |rows|
  {
    if rows != [] {
      if !AlwaysAddress(rows[0]) && Traced(added, rows[1..]) {
        TracedCovers(added, rows[1..]);
      } else {
        TracedCovers(added[1..], rows[1..]);
      }
    }
  }

  /** A one-row page that `AlwaysAddress` holds of traces exactly its
      fragment. */
  lemma TracedSingle(added: seq<string>, row: Row)
    requires Traced(added, [row]) && AlwaysAddress(row)
    ensures |added| == 1 && AddressFragment(row, added[0])
  {
    var rows := [row];
    assert rows[0] == row && rows[1..] == [];
    assert |added| > 0 && AddressFragment(row, added[0]) && Traced(added[1..], []);
  }

  /** When that branch appends the raw value, the fragment is the value. */
  lemma TracedPlainSingle(added: seq<string>, row: Row, a: nat)
    requires Traced(added, [row]) && AlwaysAddress(row)
    requires AddressBranch(row.campo, 0) == Some(a) && Rules[a].action == Append
    ensures added == [row.valor]
  {
    TracedSingle(added, row);
  }

  /** The address is the ", "-join of the non-empty fragments, which are the
      address parts of the fetched rows in page-then-row order, every
      `AlwaysAddress` row included. */
  lemma ExtraerDireccion(pages: seq<Page>)
    ensures exists fragments ::
              Traced(fragments, Flatten(pages)) && ExtraerDatos(pages)[Direccion] == Join(", ", NonEmpty(fragments))
  {
    ScanPagesFlatten(Initial(), pages);
    var s := ScanPages(Initial(), pages);
    ScanRowsFragments(Initial(), Flatten(pages));
    assert s.componentes[0..] == s.componentes;
  }

  // ---------------------------------------------------------------------------
  // The chain's order
  // ---------------------------------------------------------------------------

  lemma {:induction false} FirstFiringSkip(from: nat, to: nat, campo: string, res: map<string, string>)
    requires from <= to <= |Rules|
    requires forall j :: from <= j < to ==> !Fires(Rules[j], campo, res)
    ensures FirstFiring(from, campo, res) == FirstFiring(to, campo, res)
    decreases |Rules| - from
  {
    if from < to {
      FirstFiringSkip(from + 1, to, campo, res);
    }
  }

  /** A row whose header names an already filled field is not stored again:
      it falls through to the branches after that field's. */
  lemma FilledFieldFallsThrough(s: Scan, row: Row, i: nat)
    requires i < |Rules| && Rules[i].action.Store?
    requires Rules[i].action.field in s.resultados && s.resultados[Rules[i].action.field] != ""
    requires forall j :: 0 <= j < i ==> !Fires(Rules[j], row.campo, s.resultados)
    ensures FirstFiring(0, row.campo, s.resultados) == FirstFiring(i + 1, row.campo, s.resultados)
  {
    FirstFiringSkip(0, i + 1, row.campo, s.resultados);
  }

  /** The first branch whose condition holds is the one that acts. */
  lemma RowTakenBy(s: Scan, row: Row, i: nat)
    requires i < |Rules| && Fires(Rules[i], row.campo, s.resultados)
    requires forall j :: 0 <= j < i ==> !Fires(Rules[j], row.campo, s.resultados)
    ensures ClassifyRow(s, row) == Apply(Rules[i].action, row.valor, s)
  {
    FirstFiringSkip(0, i, row.campo, s.resultados);
  }

  /** A row taken by one of the plain address branches (dirección, ubicación,
      domicilio, bien; localidad, municipio; provincia) adds its raw value. */
  lemma AddressRowAppends(s: Scan, row: Row, i: nat)
    requires i == AddressRule || i == PostalRule + 1 || i == PostalRule + 2
    requires Matches(row.campo, Rules[i].patterns)
    requires forall j :: 0 <= j < i ==> !Fires(Rules[j], row.campo, s.resultados)
    ensures ClassifyRow(s, row) == s.(componentes := s.componentes + [row.valor])
  {
    RowTakenBy(s, row, i);
  }

  /** A postal-code row that reaches its branch adds "CP " and the value. */
  lemma PostalRowAppends(s: Scan, row: Row)
    requires Matches(row.campo, ["código postal"])
    requires forall j :: 0 <= j < PostalRule ==> !Fires(Rules[j], row.campo, s.resultados)
    ensures ClassifyRow(s, row) == s.(componentes := s.componentes + ["CP " + row.valor])
  {
    RowTakenBy(s, row, PostalRule);
  }

  /** A row whose header matches no branch, or only branches of filled
      fields, leaves the state as it was. */
  lemma UnmatchedRowIgnored(s: Scan, row: Row)
    requires forall j :: 0 <= j < |Rules| ==> !Fires(Rules[j], row.campo, s.resultados)
    ensures ClassifyRow(s, row) == s
  {
    FirstFiringSkip(0, |Rules|, row.campo, s.resultados);
  }

  /** The header does not contain `t` when some character of `t` is missing. */
  lemma MissingChar(campo: string, t: string, c: char)
    requires c in t && c !in campo
    ensures !Contains(campo, t)
  {
    if Contains(campo, t) { ContainsChars(campo, t); }
  }

  /** A header that matches both the identifier branch and the broad `bien`
      test. */
  const BienHeader: string := "identificador del bien"

  lemma BienHeaderMatches()
    ensures Matches(BienHeader, Rules[0].patterns)
    ensures Matches(BienHeader, Rules[AddressRule].patterns)
  {
    ContainsAt(BienHeader, "identificador", 0);
    assert Rules[0].patterns[0] == "identificador";
    assert BienHeader[18..22] == "bien";
    ContainsAt(BienHeader, "bien", 18);
    assert Rules[AddressRule].patterns[3] == "bien";
  }

  /** A one-pattern branch misses a header lacking a character of the pattern. */
  lemma MissesSingle(campo: string, r: Rule, c: char)
    requires |r.patterns| == 1 && c in r.patterns[0] && c !in campo
    ensures !Matches(campo, r.patterns)
  {
    MissingChar(campo, r.patterns[0], c);
  }

  lemma BienHeaderLacks()
    ensures 'u' !in BienHeader && 'm' !in BienHeader && 'v' !in BienHeader
    ensures 's' !in BienHeader && 'p' !in BienHeader
  {
  }

  lemma BienHeaderMisses(j: nat)
    requires 1 <= j < AddressRule
    ensures !Matches(BienHeader, Rules[j].patterns)
  {
    BienHeaderLacks();
    var r := Rules[j];
    if j == 1 {
      assert r.patterns == ["conclusión"] && 'u' in r.patterns[0];
      MissesSingle(BienHeader, r, 'u');
    } else if j == 2 {
      assert r.patterns == ["cantidad reclamada"] && 'm' in r.patterns[0];
      MissesSingle(BienHeader, r, 'm');
    } else if j == 3 {
      assert r.patterns == ["valor subasta"] && 'v' in r.patterns[0];
      MissesSingle(BienHeader, r, 'v');
    } else if j == 4 {
      assert r.patterns == ["tasación"] && 's' in r.patterns[0];
      MissesSingle(BienHeader, r, 's');
    } else if j == 5 {
      assert r.patterns == ["tramos entre pujas"] && 'm' in r.patterns[0];
      MissesSingle(BienHeader, r, 'm');
    } else {
      assert r.patterns == ["depósito"] && 'p' in r.patterns[0];
      MissesSingle(BienHeader, r, 'p');
    }
  }

  /** With the identifier filled, no branch before the address one takes
      the header. */
  lemma BienHeaderSkipsStores(res: map<string, string>)
    requires Identificador in res && res[Identificador] != ""
    ensures forall j :: 0 <= j < AddressRule ==> !Fires(Rules[j], BienHeader, res)
  {
    forall j | 0 <= j < AddressRule ensures !Fires(Rules[j], BienHeader, res) {
      if j > 0 { BienHeaderMisses(j); }
    }
  }

  /** A header the address chain takes although the later `catastral`
      branch also matches it. */
  const LocalidadCatastral: string := "localidad catastral"

  lemma LocalidadCatastralLacks()
    ensures 'n' !in LocalidadCatastral && 'm' !in LocalidadCatastral
    ensures 'p' !in LocalidadCatastral && 'v' !in LocalidadCatastral
  {
  }

  /** No storing branch before the address ones matches the header. */
  lemma LocalidadCatastralMissesStores(j: nat)
    requires j < AddressRule
    ensures !Matches(LocalidadCatastral, Rules[j].patterns)
  {
    LocalidadCatastralLacks();
    var h, r := LocalidadCatastral, Rules[j];
    if j == 0 {
      assert r.patterns == ["identificador"] && 'n' in r.patterns[0];
      MissesSingle(h, r, 'n');
    } else if j == 1 {
      assert r.patterns == ["conclusión"] && 'n' in r.patterns[0];
      MissesSingle(h, r, 'n');
    } else if j == 2 {
      assert r.patterns == ["cantidad reclamada"] && 'n' in r.patterns[0];
      MissesSingle(h, r, 'n');
    } else if j == 3 {
      assert r.patterns == ["valor subasta"] && 'v' in r.patterns[0];
      MissesSingle(h, r, 'v');
    } else if j == 4 {
      assert r.patterns == ["tasación"] && 'n' in r.patterns[0];
      MissesSingle(h, r, 'n');
    } else if j == 5 {
      assert r.patterns == ["tramos entre pujas"] && 'm' in r.patterns[0];
      MissesSingle(h, r, 'm');
    } else {
      assert r.patterns == ["depósito"] && 'p' in r.patterns[0];
      MissesSingle(h, r, 'p');
    }
  }

  /** A header without `n` and `m` misses every pattern of the first address
      branch. */
  lemma MissesAddressPatterns(campo: string, pats: seq<string>)
    requires pats == ["dirección", "ubicación", "domicilio", "bien"]
    requires 'n' !in campo && 'm' !in campo
    ensures !Matches(campo, pats)
  {
    assert pats[0][8] == 'n' && pats[1][8] == 'n' && pats[2][2] == 'm' && pats[3][3] == 'n';
    forall i | 0 <= i < |pats|
      ensures !Contains(campo, pats[i])
    {
      if i == 2 { MissingChar(campo, pats[i], 'm'); } else { MissingChar(campo, pats[i], 'n'); }
    }
  }

  /** Nor do the first address branch and the postal-code branch. */
  lemma LocalidadCatastralMissesAddress()
    ensures !Matches(LocalidadCatastral, Rules[AddressRule].patterns)
    ensures !Matches(LocalidadCatastral, Rules[PostalRule].patterns)
  {
    LocalidadCatastralLacks();
    MissesAddressPatterns(LocalidadCatastral, Rules[AddressRule].patterns);
    var r := Rules[PostalRule];
    assert r.patterns == ["código postal"] && r.patterns[0][7] == 'p';
    MissesSingle(LocalidadCatastral, r, 'p');
  }

  /** "localidad catastral" reaches the `localidad` branch, matches no storing
      branch before it, and also matches the `catastral` branch after it. */
  lemma LocalidadCatastralAlwaysAddress(v: string)
    ensures AddressBranch(LocalidadCatastral, 0) == Some(PostalRule + 1)
    ensures AlwaysAddress(Row(LocalidadCatastral, v))
    ensures Matches(LocalidadCatastral, Rules[|Rules| - 1].patterns)
  {
    var h := LocalidadCatastral;
    assert h[..9] == "localidad";
    ContainsAt(h, "localidad", 0);
    assert Rules[PostalRule + 1].patterns[0] == "localidad";
    assert Matches(h, Rules[PostalRule + 1].patterns);
    forall j | 0 <= j < AddressRule
      ensures !Matches(h, Rules[j].patterns)
    {
      LocalidadCatastralMissesStores(j);
    }
    LocalidadCatastralMissesAddress();
    assert h[10..19] == "catastral";
    ContainsAt(h, "catastral", 10);
    assert Rules[|Rules| - 1].patterns[1] == "catastral";
  }

  /** So whatever the state, a page holding only that row traces exactly its
      value as the address. */
  lemma LocalidadCatastralTraced(v: string)
    ensures forall added :: Traced(added, [Row(LocalidadCatastral, v)]) ==> added == [v]
  {
    LocalidadCatastralAlwaysAddress(v);
    forall added | Traced(added, [Row(LocalidadCatastral, v)])
      ensures added == [v]
    {
      TracedPlainSingle(added, Row(LocalidadCatastral, v), PostalRule + 1);
    }
  }


  /** The identifier is not one of the cleaned fields. */
  lemma IdentificadorNotNumeric()
    ensures Identificador !in NumericCampos
  {
    assert Identificador[0] == 'I' && ValorSubasta[0] == 'V';
    assert |Identificador| != |CantidadReclamada| && |Identificador| != |Tasacion|;
    assert |Identificador| != |TramosEntrePujas| && |Identificador| != |ImporteDeposito|;
  }

  /** "identificador del bien" fills `Identificador` while that field is
      empty. */
  lemma BienHeaderFillsIdentificador(s: Scan, valor: string)
    requires Identificador in s.resultados && s.resultados[Identificador] == ""
    ensures ClassifyRow(s, Row(BienHeader, valor)).resultados == s.resultados[Identificador := valor]
  {
    BienHeaderMatches();
    IdentificadorNotNumeric();
    RowTakenBy(s, Row(BienHeader, valor), 0);
  }

  /** Once `Identificador` is filled, the same header falls through to the
      broad `bien` test and becomes an address fragment. */
  lemma BienHeaderFallsToAddress(s: Scan, valor: string)
    requires Identificador in s.resultados && s.resultados[Identificador] != ""
    ensures ClassifyRow(s, Row(BienHeader, valor)) == s.(componentes := s.componentes + [valor])
  {
    BienHeaderMatches();
    BienHeaderSkipsStores(s.resultados);
    RowTakenBy(s, Row(BienHeader, valor), AddressRule);
  }
}
