/**
 * The row transform of the Pakistan National Assembly membership scraper:
 * every row of the query result (already parsed, its column names lowercased)
 * becomes one flat record for storage. The transform is pure; the query, the
 * CSV parsing and the storage calls around it are not modelled.
 */
module Scraper {
  import opened Wrappers
  import opened RubyString
  import opened NaPattern

  /** One query-result row. Each column is nil when the query left it unbound
      (or the CSV cell was empty and unquoted), otherwise its text, which may
      be empty. `term` and `termlabel`
      are selected by the query but not read by the transform. */
  datatype RawRow = RawRow(
    item: Option<string>,
    itemlabel: Option<string>,
    start_date: Option<string>,
    end_date: Option<string>,
    hasrolelabel: Option<string>,
    constituency: Option<string>,
    constituencylabel: Option<string>,
    party: Option<string>,
    partylabel: Option<string>,
    partyshortname: Option<string>,
    term: Option<string>,
    termlabel: Option<string>,
    termordinal: Option<string>,
    scrapername: Option<string>
  )

  /** The stored record. Fields that can be nil in the source are options. */
  datatype OutputRecord = OutputRecord(
    id: Option<string>,
    name: Option<string>,
    start_date: string,
    end_date: string,
    legislative_membership_type: string,
    constituency: string,
    constituency_id: Option<string>,
    party: Option<string>,
    party_id: Option<string>,
    term: Option<string>
  )

  /** Indexing a nil constituency label raises, which aborts the transform. */
  datatype TransformError = MissingConstituencyLabel

  /** The error that stops a whole run: the index of the row that raised. */
  datatype RunError = RunError(row: nat, cause: TransformError)

  /** The id of an entity: the last non-empty `/`-separated segment of its URI,
      nil when the URI is nil, empty or only slashes. */
  function WikidataId(url: Option<string>): (r: Option<string>)
    ensures r.None? <==> forall i :: 0 <= i < |ToS(url)| ==> ToS(url)[i] == Slash
    ensures url.None? ==> r.None?
    ensures r.Some? ==> r.value != [] && Slash !in r.value
  {
    var s := ToS(url);
    LastSegmentNone(s);
    LastSegment(s)
  }

  /** Where a found id sits in the URI: at the start or after a slash, with
      nothing but slashes after it. */
  lemma WikidataIdShape(url: Option<string>) returns (k: nat)
    requires WikidataId(url).Some?
    ensures var s, t := ToS(url), WikidataId(url).value;
      && k + |t| <= |s|
      && s[k..k + |t|] == t
      && (k == 0 || s[k - 1] == Slash)
      && forall i :: k + |t| <= i < |s| ==> s[i] == Slash
  {
    k := LastSegmentShape(ToS(url));
  }

  /** The party slug `downcase.tr('^a-z', '')`: letters lowercased, everything
      else removed. */
  function PartySlug(s: string): (r: string)
    ensures forall i :: 0 <= i < |r| ==> IsLower(r[i])
    ensures |r| <= |s|
  {
    KeepLower(Downcase(s))
  }

  /** The value of `constituency_id`: the `NA-<digits>` token of the label, or
      failing that the id of the constituency URI. */
  function ConstituencyId(labelText: string, url: Option<string>): (r: Option<string>)
    ensures Match(labelText).Some? ==> r == Match(labelText)
    ensures Match(labelText).None? ==> r == WikidataId(url)
  {
    match Match(labelText)
    case Some(t) => Some(t)
    case None => WikidataId(url)
  }

  function Min(a: int, b: int): int { if a < b then a else b }

  /** One row to one record. Only a nil constituency label makes it fail. */
  function Transform(row: RawRow): (r: Result<OutputRecord, TransformError>)
    ensures r.Err? <==> row.constituencylabel.None?
  {
    match row.constituencylabel
    case None => Err(MissingConstituencyLabel)
    case Some(labelText) => Ok(Record(row, labelText))
  }

  /** The hash literal of the transform, for a row whose constituency label
      is `labelText`. */
  function Record(row: RawRow, labelText: string): OutputRecord {
    OutputRecord(
      id := WikidataId(row.item),
      name := if IsBlank(row.scrapername) then row.itemlabel else row.scrapername,
      start_date := SliceTo(ToS(row.start_date), 9),
      end_date := SliceTo(ToS(row.end_date), 9),
      legislative_membership_type := if IsBlank(row.hasrolelabel) then "" else row.hasrolelabel.value,
      constituency := labelText,
      constituency_id := ConstituencyId(labelText, row.constituency),
      party := if IsBlank(row.partyshortname) then row.partylabel else row.partyshortname,
      party_id := if IsBlank(row.partyshortname) then WikidataId(row.party)
                  else Some(PartySlug(row.partyshortname.value)),
      term := row.termordinal
    )
  }

  /** Field by field, what a successful transform stores. */
  lemma TransformFields(row: RawRow)
    requires row.constituencylabel.Some?
    ensures var o := Transform(row).value;
      && o.id == WikidataId(row.item)
      && (!IsBlank(row.scrapername) ==> o.name == row.scrapername)
      && (IsBlank(row.scrapername) ==> o.name == row.itemlabel)
      && o.start_date <= ToS(row.start_date)
      && |o.start_date| == Min(|ToS(row.start_date)|, 10)
      && o.end_date <= ToS(row.end_date)
      && |o.end_date| == Min(|ToS(row.end_date)|, 10)
      && o.legislative_membership_type == ToS(row.hasrolelabel)
      && o.constituency == row.constituencylabel.value
      && (Match(o.constituency).Some? ==> o.constituency_id == Match(o.constituency))
      && (Match(o.constituency).None? ==> o.constituency_id == WikidataId(row.constituency))
      && (!IsBlank(row.partyshortname) ==>
            && o.party == row.partyshortname
            && o.party_id == Some(PartySlug(row.partyshortname.value)))
      && (IsBlank(row.partyshortname) ==>
            && o.party == row.partylabel
            && o.party_id == WikidataId(row.party))
      && o.term == row.termordinal
  {
  }

  /** Ruby's `map` with a block that may raise: every element mapped in order,
      or the first element whose block raises, which ends the whole map. */
  function MapUntilError<A, B>(f: A -> Result<B, TransformError>, xs: seq<A>): (r: Result<seq<B>, RunError>)
    ensures r.Ok? ==>
      && |r.value| == |xs|
      && forall i :: 0 <= i < |xs| ==> f(xs[i]) == Ok(r.value[i])
    ensures r.Err? ==>
      && r.error.row < |xs|
      && f(xs[r.error.row]) == Err(r.error.cause)
      && forall i :: 0 <= i < r.error.row ==> f(xs[i]).Ok?
    decreases |xs|
  {
    if xs == [] then Ok([])
    else
      var head := f(xs[0]);
      if head.Err? then Err(RunError(0, head.error))
      else
        var rest := MapUntilError(f, xs[1..]);
        assert forall i :: 1 <= i < |xs| ==> xs[1..][i - 1] == xs[i];
        if rest.Err? then Err(RunError(rest.error.row + 1, rest.error.cause))
        else Ok([head.value] + rest.value)
  }

  /** The whole run, `rows.map { ... }`: every row transformed in order, or the
      first row whose transform raises, which aborts the run with no records. */
  function TransformAll(rows: seq<RawRow>): (r: Result<seq<OutputRecord>, RunError>)
    ensures r.Ok? <==> forall i :: 0 <= i < |rows| ==> rows[i].constituencylabel.Some?
    ensures r.Ok? ==>
      && |r.value| == |rows|
      && forall i :: 0 <= i < |rows| ==> Transform(rows[i]) == Ok(r.value[i])
    ensures r.Err? ==>
      && r.error.row < |rows|
      && rows[r.error.row].constituencylabel.None?
      && Transform(rows[r.error.row]) == Err(r.error.cause)
      && forall i :: 0 <= i < r.error.row ==> Transform(rows[i]).Ok?
  {
    MapUntilError(Transform, rows)
  }

  /** The slug is computed character by character: it maps a concatenation to
      the concatenation of the slugs. */
  lemma PartySlugAppend(a: string, b: string)
    ensures PartySlug(a + b) == PartySlug(a) + PartySlug(b)
  {
    DowncaseAppend(a, b);
    KeepLowerAppend(Downcase(a), Downcase(b));
  }

  /** An ASCII letter becomes its lower-case form; every other character is dropped. */
  lemma PartySlugChar(c: char)
    ensures PartySlug([c]) == if IsUpper(c) || IsLower(c) then [LowerChar(c)] else []
  {
  }

  /** Slugging a slug changes nothing. */
  lemma PartySlugIdempotent(s: string)
    ensures PartySlug(PartySlug(s)) == PartySlug(s)
  {
    var r := PartySlug(s);
    DowncaseNoUpper(r);
    KeepLowerAllLower(r);
  }

  // ---------------------------------------------------------------------------
  // Worked examples
  // ---------------------------------------------------------------------------

  lemma ExampleItemId()
    ensures WikidataId(Some("http://www.wikidata.org/entity/Q123")) == Some("Q123")
  {
    LastSegmentOf("http://www.wikidata.org/entity/", "Q123", "");
    assert "http://www.wikidata.org/entity/" + "Q123" + "" == "http://www.wikidata.org/entity/Q123";
  }

  lemma ExampleDate()
    ensures SliceTo("1990-01-01T00:00:00Z", 9) == "1990-01-01"
  {
  }

  lemma ExampleConstituencyToken()
    ensures ConstituencyId("NA-54 Rawalpindi-III", None) == Some("NA-54")
  {
    var s := "NA-54 Rawalpindi-III";
    assert StartsAt(s, 0);
    assert DigitRunEnd(s, 3) == 5;
    assert MatchFrom(s, 0) == Some((0, 5));
    assert s[0..5] == "NA-54";
  }

  lemma ExampleConstituencyFallback()
    ensures ConstituencyId("Karachi", Some("http://www.wikidata.org/entity/Q123456")) == Some("Q123456")
  {
    LastSegmentOf("http://www.wikidata.org/entity/", "Q123456", "");
    assert "http://www.wikidata.org/entity/" + "Q123456" + "" == "http://www.wikidata.org/entity/Q123456";
  }

  lemma ExamplePartySlug()
    ensures PartySlug("PTI") == "pti"
  {
  }

  lemma ExamplePartySlugPunctuation()
    ensures PartySlug("GDA (2)") == "gda"
  {
  }

  /** A member with a scraper name and no role, a party with a short name and
      a timestamped start date. */
  const SampleRow := RawRow(
    item := Some("http://www.wikidata.org/entity/Q123"),
    itemlabel := Some("Imran Khan"),
    start_date := Some("2018-08-13T00:00:00Z"),
    end_date := None,
    hasrolelabel := None,
    constituency := Some("http://www.wikidata.org/entity/Q456"),
    constituencylabel := Some("NA-54 Rawalpindi-III"),
    party := Some("http://www.wikidata.org/entity/Q789"),
    partylabel := Some("Pakistan Tehreek-e-Insaf"),
    partyshortname := Some("PTI"),
    term := Some("http://www.wikidata.org/entity/Q111"),
    termlabel := Some("15th National Assembly of Pakistan"),
    termordinal := Some("15"),
    scrapername := Some("Imran Ahmed Khan Niazi"))

  /** The record the sample row becomes. */
  lemma ExampleRow()
    ensures Transform(SampleRow) == Ok(OutputRecord(
      id := Some("Q123"),
      name := Some("Imran Ahmed Khan Niazi"),
      start_date := "2018-08-13",
      end_date := "",
      legislative_membership_type := "",
      constituency := "NA-54 Rawalpindi-III",
      constituency_id := Some("NA-54"),
      party := Some("PTI"),
      party_id := Some("pti"),
      term := Some("15")))
  {
    var o := Record(SampleRow, "NA-54 Rawalpindi-III");
    assert Transform(SampleRow) == Ok(o);
    assert o.id == Some("Q123") by { ExampleItemId(); }
    assert o.constituency_id == Some("NA-54") by { ExampleConstituencyToken(); }
    assert o.party_id == Some("pti") by { ExamplePartySlug(); }
    assert o.start_date == "2018-08-13";
  }
}
