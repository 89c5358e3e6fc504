/** `alterForumTermOverviewForm`: the forum overview table gets an 'Access' column
    saying whether each forum's access record is inherited or custom, every forum
    gets a 'configure access' operation, and the 'Operations' column is moved to
    the end of the header and of every row. */
module ForumTermOverview {
  import opened Wrappers
  import opened PhpArray
  import opened Taxonomy

  /** The string translation service of the current language. */
  type Translator = string -> string

  /** A header cell: a translatable markup object (its source string and the string
      it renders to) or any other value. */
  datatype Header = Translatable(source: string, rendered: string) | Plain(text: string)

  /** The header is a translatable markup that renders like `t('Operations')`. */
  predicate IsOperations(h: Header, t: Translator) {
    h.Translatable? && h.rendered == t("Operations")
  }

  function AccessHeader(t: Translator): Header {
    Translatable("Access", t("Access"))
  }

  /** Reference definition: the headers that are not 'Operations', in order. */
  function NonOperations(hs: seq<Header>, t: Translator): (r: seq<Header>)
    ensures |r| <= |hs|
    ensures forall h | h in r :: h in hs && !IsOperations(h, t)
    ensures forall h | h in hs && !IsOperations(h, t) :: h in r
    decreases |hs|
  {
    if |hs| == 0 then []
    else if IsOperations(hs[0], t) then NonOperations(hs[1..], t)
    else [hs[0]] + NonOperations(hs[1..], t)
  }

  lemma {:induction false} NonOperationsSnoc(hs: seq<Header>, h: Header, t: Translator)
    ensures NonOperations(hs + [h], t) == NonOperations(hs, t) + (if IsOperations(h, t) then [] else [h])
    decreases |hs|
  {
    if |hs| == 0 {
      assert hs + [h] == [h];
    } else {
      assert (hs + [h])[0] == hs[0];
      assert (hs + [h])[1..] == hs[1..] + [h];
      NonOperationsSnoc(hs[1..], h, t);
    }
  }

  ghost predicate HasOperations(hs: seq<Header>, t: Translator) {
    exists i :: 0 <= i < |hs| && IsOperations(hs[i], t)
  }

  /** `h` is the last 'Operations' header of `hs`. */
  ghost predicate IsLastOperations(hs: seq<Header>, t: Translator, h: Header) {
    exists i :: 0 <= i < |hs| && hs[i] == h && IsOperations(h, t) &&
      forall j | i < j < |hs| :: !IsOperations(hs[j], t)
  }

  lemma HasOperationsSnoc(init: seq<Header>, h: Header, t: Translator)
    ensures HasOperations(init + [h], t) <==> HasOperations(init, t) || IsOperations(h, t)
  {
    var hs := init + [h];
    if HasOperations(hs, t) {
      var i :| 0 <= i < |hs| && IsOperations(hs[i], t);
      if i < |init| {
        assert init[i] == hs[i];
      }
    }
    if HasOperations(init, t) {
      var i :| 0 <= i < |init| && IsOperations(init[i], t);
      assert hs[i] == init[i];
    }
    if IsOperations(h, t) {
      assert hs[|init|] == h;
    }
  }

  lemma IsLastOperationsSnoc(init: seq<Header>, h: Header, t: Translator, x: Header)
    ensures IsOperations(h, t) ==> IsLastOperations(init + [h], t, h)
    ensures !IsOperations(h, t) && IsLastOperations(init, t, x) ==> IsLastOperations(init + [h], t, x)
  {
    var hs := init + [h];
    assert hs[|init|] == h;
    if !IsOperations(h, t) && IsLastOperations(init, t, x) {
      var i :| 0 <= i < |init| && init[i] == x && IsOperations(x, t) &&
        forall j | i < j < |init| :: !IsOperations(init[j], t);
      assert hs[i] == init[i];
      assert forall j | i < j < |hs| :: hs[j] == if j < |init| then init[j] else h;
    }
  }

  /** State of the header loop: headers kept so far, 'Operations' header found last. */
  datatype Scan = Scan(kept: seq<Header>, found: Option<Header>)

  /** The `foreach` over the headers: every 'Operations' header is unset and
      remembered, a later one replacing an earlier one. */
  function ScanHeaders(hs: seq<Header>, t: Translator): (r: Scan)
    ensures r.kept == NonOperations(hs, t)
    ensures r.found.Some? <==> HasOperations(hs, t)
    ensures r.found.Some? ==> IsLastOperations(hs, t, r.found.value)
    decreases |hs|
  {
    if |hs| == 0 then Scan([], None)
    else
      var init := hs[..|hs| - 1];
      var h := hs[|hs| - 1];
      assert hs == init + [h];
      NonOperationsSnoc(init, h, t);
      HasOperationsSnoc(init, h, t);
      var prefix := ScanHeaders(init, t);
      IsLastOperationsSnoc(init, h, t, prefix.found.GetOr(h));
      if IsOperations(h, t) then Scan(prefix.kept, Some(h))
      else Scan(prefix.kept + [h], prefix.found)
  }

  /** The scan over the headers with 'Access' appended. */
  function ScanWithAccess(headers: seq<Header>, t: Translator): Scan {
    ScanHeaders(headers + [AccessHeader(t)], t)
  }

  /** What the scan with 'Access' appended yields, when 'Access' does not render
      like 'Operations'. */
  lemma ScanWithAccessShape(headers: seq<Header>, t: Translator)
    requires !IsOperations(AccessHeader(t), t)
    ensures ScanWithAccess(headers, t).kept == NonOperations(headers, t) + [AccessHeader(t)]
    ensures ScanWithAccess(headers, t).found.Some? <==> HasOperations(headers, t)
    ensures ScanWithAccess(headers, t).found.Some? ==> IsLastOperations(headers, t, ScanWithAccess(headers, t).found.value)
  {}

  /** The header pass: append 'Access', then unset every 'Operations' header and
      append the last one found. At most one 'Operations' header remains, and it is
      last. When 'Access' does not itself render like 'Operations', the result is
      the other headers in order, then 'Access', then the last 'Operations' header
      if there was one. */
  function HeaderPass(headers: seq<Header>, t: Translator): (r: seq<Header>)
    ensures forall i | 0 <= i < |r| - 1 :: !IsOperations(r[i], t)
    ensures !IsOperations(AccessHeader(t), t) ==>
      if HasOperations(headers, t) then
        |r| == |NonOperations(headers, t)| + 2 &&
        r[..|r| - 1] == NonOperations(headers, t) + [AccessHeader(t)] &&
        IsLastOperations(headers, t, r[|r| - 1])
      else r == NonOperations(headers, t) + [AccessHeader(t)]
  {
    var scan := ScanWithAccess(headers, t);
    var r := scan.kept + (if scan.found.Some? then [scan.found.value] else []);
    assert forall i | 0 <= i < |scan.kept| :: r[i] == scan.kept[i] && scan.kept[i] in scan.kept;
    if !IsOperations(AccessHeader(t), t) then
      ScanWithAccessShape(headers, t);
      assert scan.found.Some? ==> r[..|r| - 1] == scan.kept;
      r
    else r
  }

  /** A link of an operations element; only the 'configure access' link is built
      here (its redirect-destination query is not modelled). */
  datatype Link = Link(title: string, route: string, termId: TermId)

  /** A cell of an overview row: NULL, or a render element with an optional
      '#markup' and its '#links' in order. */
  datatype Value = Null | Element(markup: Option<string>, links: seq<Entry<Link>>)

  /** A row of the overview table: its '#term' (if any) and its child cells. */
  datatype Row = Row(term: Option<TermId>, cells: seq<Entry<Value>>)

  /** The three inheritance flags of a forum access record. */
  datatype AccessFlags = AccessFlags(inheritsMemberUserIds: bool, inheritsModeratorUserIds: bool, inheritsPermissions: bool)

  const OperationsKey: Key := "operations"
  const AccessKey: Key := "access"
  const LinkKey: Key := "thunder_forum_access"
  const Inherited: string := "Inherited"
  const Custom: string := "Custom"

  function ConfigureAccessLink(tid: TermId): Link {
    Link("configure access", "entity.taxonomy_term.thunder_forum_access", tid)
  }

  predicate WellFormedValue(v: Value) {
    v.Element? ==> UniqueKeys(v.links)
  }

  predicate WellFormedRow(row: Row) {
    UniqueKeys(row.cells) && forall i | 0 <= i < |row.cells| :: WellFormedValue(row.cells[i].value)
  }

  /** The markup of the 'Access' cell. */
  function AccessLabel(flags: AccessFlags): (text: string)
    ensures text == Inherited <==> flags.inheritsMemberUserIds && flags.inheritsModeratorUserIds && flags.inheritsPermissions
    ensures text == Custom <==> !(flags.inheritsMemberUserIds && flags.inheritsModeratorUserIds && flags.inheritsPermissions)
  {
    if flags.inheritsMemberUserIds && flags.inheritsModeratorUserIds && flags.inheritsPermissions then Inherited else Custom
  }

  /** Writing the 'configure access' link into an operations cell (a NULL cell
      becomes an element holding just that link); the other links and the markup
      are kept. */
  function AddAccessLink(v: Value, tid: TermId): (r: Value)
    requires WellFormedValue(v)
    ensures r.Element? && WellFormedValue(r)
    ensures r.markup == (if v.Element? then v.markup else None)
    ensures Lookup(r.links, LinkKey) == Some(ConfigureAccessLink(tid))
    ensures forall x | x != LinkKey :: Lookup(r.links, x) == (if v.Element? then Lookup(v.links, x) else None)
    ensures Keys(r.links) == if v.Null? then [LinkKey]
      else if LinkKey in Keys(v.links) then Keys(v.links) else Keys(v.links) + [LinkKey]
  {
    match v
    case Null => Element(None, [Entry(LinkKey, ConfigureAccessLink(tid))])
    case Element(markup, links) => Element(markup, Set(links, LinkKey, ConfigureAccessLink(tid)))
  }

  /** A row is well formed when every value reachable by key is. */
  lemma WellFormedByLookup(cells: seq<Entry<Value>>)
    requires UniqueKeys(cells)
    requires forall x | Lookup(cells, x).Some? :: WellFormedValue(Lookup(cells, x).value)
    ensures forall term :: WellFormedRow(Row(term, cells))
  {
    forall i | 0 <= i < |cells| ensures WellFormedValue(cells[i].value) {
      LookupAt(cells, i);
    }
  }

  lemma LookupWellFormed(row: Row, k: Key)
    requires WellFormedRow(row)
    ensures WellFormedValue(Lookup(row.cells, k).GetOr(Null))
  {}

  /** Read, unset and re-set the 'operations' cell, which moves it to the end. A row
      without one gets a NULL 'operations' cell, as reading a missing key yields NULL. */
  function MoveOperationsLast(cells: seq<Entry<Value>>): (r: seq<Entry<Value>>)
    requires UniqueKeys(cells)
    ensures UniqueKeys(r)
    ensures Keys(r) == Without(Keys(cells), OperationsKey) + [OperationsKey]
    ensures Lookup(r, OperationsKey) == Some(Lookup(cells, OperationsKey).GetOr(Null))
    ensures forall x | x != OperationsKey :: Lookup(r, x) == Lookup(cells, x)
  {
    var operations := Lookup(cells, OperationsKey).GetOr(Null);
    Set(Unset(cells, OperationsKey), OperationsKey, operations)
  }

  /** Moving the cell a second time changes nothing. */
  lemma MoveOperationsLastIdempotent(cells: seq<Entry<Value>>)
    requires UniqueKeys(cells)
    ensures MoveOperationsLast(MoveOperationsLast(cells)) == MoveOperationsLast(cells)
  {}

  /** The cells of a row after the '#term' branch: the 'configure access' link is
      written into 'operations' and the 'access' cell is set from the access record. */
  function AddAccessCells(row: Row, records: TermId -> AccessFlags): (cells: seq<Entry<Value>>)
    requires WellFormedRow(row) && row.term.Some?
    ensures UniqueKeys(cells)
    ensures Keys(cells) == Keys(row.cells)
      + (if OperationsKey in Keys(row.cells) then [] else [OperationsKey])
      + (if AccessKey in Keys(row.cells) then [] else [AccessKey])
    ensures forall x | x != OperationsKey && x != AccessKey :: Lookup(cells, x) == Lookup(row.cells, x)
    ensures Lookup(cells, AccessKey) == Some(Element(Some(AccessLabel(records(row.term.value))), []))
    ensures Lookup(cells, OperationsKey) == Some(AddAccessLink(Lookup(row.cells, OperationsKey).GetOr(Null), row.term.value))
  {
    var tid := row.term.value;
    LookupWellFormed(row, OperationsKey);
    var withLink := Set(row.cells, OperationsKey, AddAccessLink(Lookup(row.cells, OperationsKey).GetOr(Null), tid));
    var newOperations := if OperationsKey in Keys(row.cells) then [] else [OperationsKey];
    assert Keys(withLink) == Keys(row.cells) + newOperations;
    assert AccessKey in Keys(withLink) <==> AccessKey in Keys(row.cells) by {
      assert AccessKey !in newOperations;
    }
    Set(withLink, AccessKey, Element(Some(AccessLabel(records(tid))), []))
  }

  /** Key order of an altered row: the old keys without 'operations', then 'access'
      when the row has a term and no 'access' cell yet, then 'operations'. */
  function AlteredKeys(ks: seq<Key>, hasTerm: bool): seq<Key> {
    Without(ks, OperationsKey) + (if hasTerm && AccessKey !in ks then [AccessKey] else []) + [OperationsKey]
  }

  /** Adding the two cells and then moving 'operations' last yields that order. */
  lemma AddedKeysMoved(ks: seq<Key>)
    ensures Without(ks + (if OperationsKey in ks then [] else [OperationsKey])
      + (if AccessKey in ks then [] else [AccessKey]), OperationsKey) + [OperationsKey]
      == AlteredKeys(ks, true)
  {
    var newAccess := if AccessKey in ks then [] else [AccessKey];
    var newOperations := if OperationsKey in ks then [] else [OperationsKey];
    calc {
      Without(ks + newOperations + newAccess, OperationsKey);
      { WithoutAppend(ks + newOperations, newAccess, OperationsKey); }
      Without(ks + newOperations, OperationsKey) + Without(newAccess, OperationsKey);
      { WithoutAppend(ks, newOperations, OperationsKey); WithoutAbsent(newAccess, OperationsKey); }
      Without(ks, OperationsKey) + Without(newOperations, OperationsKey) + newAccess;
      { assert Without(newOperations, OperationsKey) == []; }
      Without(ks, OperationsKey) + newAccess;
    }
  }

  /** Altering the key order a second time changes nothing. */
  lemma AlteredKeysStable(ks: seq<Key>, hasTerm: bool)
    ensures AlteredKeys(AlteredKeys(ks, hasTerm), hasTerm) == AlteredKeys(ks, hasTerm)
  {
    var newAccess := if hasTerm && AccessKey !in ks then [AccessKey] else [];
    var once := AlteredKeys(ks, hasTerm);
    assert OperationsKey !in Without(ks, OperationsKey) + newAccess;
    WithoutLast(Without(ks, OperationsKey) + newAccess, OperationsKey);
    if hasTerm {
      assert AccessKey in once;
    }
  }

  /** The cells of a row after the '#term' branch; rows without a term keep theirs. */
  function RowCells(row: Row, records: TermId -> AccessFlags): (cells: seq<Entry<Value>>)
    requires WellFormedRow(row)
    ensures UniqueKeys(cells)
  {
    if row.term.Some? then AddAccessCells(row, records) else row.cells
  }

  lemma RowCellsWellFormed(row: Row, records: TermId -> AccessFlags)
    requires WellFormedRow(row)
    ensures WellFormedRow(Row(row.term, RowCells(row, records)))
  {
    var cells := RowCells(row, records);
    forall x | Lookup(cells, x).Some? ensures WellFormedValue(Lookup(cells, x).value) {
      LookupWellFormed(row, x);
    }
    WellFormedByLookup(cells);
  }

  lemma MoveOperationsLastWellFormed(term: Option<TermId>, cells: seq<Entry<Value>>)
    requires WellFormedRow(Row(term, cells))
    ensures WellFormedRow(Row(term, MoveOperationsLast(cells)))
  {
    var moved := MoveOperationsLast(cells);
    forall x | Lookup(moved, x).Some? ensures WellFormedValue(Lookup(moved, x).value) {
      LookupWellFormed(Row(term, cells), x);
    }
    WellFormedByLookup(moved);
  }

  lemma MovedRowCellsKeys(row: Row, records: TermId -> AccessFlags)
    requires WellFormedRow(row)
    ensures Keys(MoveOperationsLast(RowCells(row, records))) == AlteredKeys(Keys(row.cells), row.term.Some?)
  {
    if row.term.Some? {
      AddedKeysMoved(Keys(row.cells));
    } else {
      assert Keys(MoveOperationsLast(row.cells)) == Without(Keys(row.cells), OperationsKey) + [OperationsKey];
    }
  }

  /** One row of the overview: rows that carry a '#term' get the 'configure access'
      link in their operations cell and an 'Access' cell labelled from the term's
      access record (see AccessLabel); rows without one keep both cells as they
      are. Every row ends with its 'operations' cell, its other cells keep their
      order and values. */
  function AlterRow(row: Row, records: TermId -> AccessFlags): (r: Row)
    requires WellFormedRow(row)
    ensures r.term == row.term && WellFormedRow(r)
    ensures Keys(r.cells) == AlteredKeys(Keys(row.cells), row.term.Some?)
    ensures forall x | x != OperationsKey && x != AccessKey :: Lookup(r.cells, x) == Lookup(row.cells, x)
    ensures row.term.None? ==> Lookup(r.cells, AccessKey) == Lookup(row.cells, AccessKey)
    ensures row.term.None? ==> Lookup(r.cells, OperationsKey) == Some(Lookup(row.cells, OperationsKey).GetOr(Null))
    ensures row.term.Some? ==>
      Lookup(r.cells, AccessKey) == Some(Element(Some(AccessLabel(records(row.term.value))), []))
    ensures row.term.Some? ==>
      Lookup(r.cells, OperationsKey) == Some(AddAccessLink(Lookup(row.cells, OperationsKey).GetOr(Null), row.term.value))
  {
    RowCellsWellFormed(row, records);
    MoveOperationsLastWellFormed(row.term, RowCells(row, records));
    MovedRowCellsKeys(row, records);
    Row(row.term, MoveOperationsLast(RowCells(row, records)))
  }

  /** The terms table of the overview form: its header and its rows by key. */
  datatype TermsTable = TermsTable(header: seq<Header>, rows: seq<Entry<Row>>)

  /** The overview form, reduced to its optional 'terms' element. */
  datatype OverviewForm = OverviewForm(terms: Option<TermsTable>)

  predicate WellFormedOverview(form: OverviewForm) {
    form.terms.Some? ==> forall i | 0 <= i < |form.terms.value.rows| :: WellFormedRow(form.terms.value.rows[i].value)
  }

  /** `alterForumTermOverviewForm`: without a 'terms' element nothing changes;
      otherwise the header pass runs on the header and every row, in order and
      under its key, goes through the row alteration. */
  function AlterForumTermOverviewForm(form: OverviewForm, t: Translator, records: TermId -> AccessFlags): (r: OverviewForm)
    requires WellFormedOverview(form)
    ensures form.terms.None? ==> r == form
    ensures form.terms.Some? ==> (r.terms.Some? &&
      r.terms.value.header == HeaderPass(form.terms.value.header, t) &&
      Keys(r.terms.value.rows) == Keys(form.terms.value.rows) &&
      forall i | 0 <= i < |form.terms.value.rows| ::
        r.terms.value.rows[i].value == AlterRow(form.terms.value.rows[i].value, records))
  {
    match form.terms
    case None => form
    case Some(table) =>
      var rows := seq(|table.rows|, i requires 0 <= i < |table.rows| =>
        Entry(table.rows[i].key, AlterRow(table.rows[i].value, records)));
      OverviewForm(Some(TermsTable(HeaderPass(table.header, t), rows)))
  }

  /** Writing the link a second time changes nothing. */
  lemma AddAccessLinkIdempotent(v: Value, tid: TermId)
    requires WellFormedValue(v)
    ensures AddAccessLink(AddAccessLink(v, tid), tid) == AddAccessLink(v, tid)
  {
    var once := AddAccessLink(v, tid);
    var twice := AddAccessLink(once, tid);
    assert forall x :: Lookup(twice.links, x) == Lookup(once.links, x);
    Extensionality(twice.links, once.links);
  }

  lemma AlterRowKeysStable(row: Row, records: TermId -> AccessFlags)
    requires WellFormedRow(row)
    ensures Keys(AlterRow(AlterRow(row, records), records).cells) == Keys(AlterRow(row, records).cells)
  {
    AlteredKeysStable(Keys(row.cells), row.term.Some?);
  }

  lemma AlterRowLookupsStable(row: Row, records: TermId -> AccessFlags, x: Key)
    requires WellFormedRow(row)
    ensures Lookup(AlterRow(AlterRow(row, records), records).cells, x) == Lookup(AlterRow(row, records).cells, x)
  {
    if row.term.Some? && x == OperationsKey {
      LookupWellFormed(row, OperationsKey);
      AddAccessLinkIdempotent(Lookup(row.cells, OperationsKey).GetOr(Null), row.term.value);
    }
  }

  /** A second pass over a row changes nothing: the access cell and the link are
      already there, and 'operations' is already last. */
  lemma AlterRowIdempotent(row: Row, records: TermId -> AccessFlags)
    requires WellFormedRow(row)
    ensures AlterRow(AlterRow(row, records), records) == AlterRow(row, records)
  {
    var once := AlterRow(row, records);
    var twice := AlterRow(once, records);
    AlterRowKeysStable(row, records);
    forall x ensures Lookup(twice.cells, x) == Lookup(once.cells, x) {
      AlterRowLookupsStable(row, records, x);
    }
    Extensionality(twice.cells, once.cells);
  }
}
