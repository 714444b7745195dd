/** `get_latest`: patch the response body, decode it, map the rows to
    entries, filter them by the query, sort by date, pop the newest entry
    and extract its image identifier. The HTTP fetch is not modelled: the
    response body is a parameter, and so is the JSON decoder. */
module Lookup {
  import opened Wrappers
  import opened LexOrder
  import opened TailPatch
  import opened Catalog
  import opened Select
  import opened AmiTag

  /** The errors `get_latest` returns (its panics are preconditions). */
  datatype Error =
    | InvalidJson   // the body is not JSON, not an object, or its value is not an array
    | NotFound      // "Could not find ami for criteria"
    | BadAmiTag     // "Failure parsing ami"

  /** The decoding boundary: `serde_json::from_str` followed by taking the
      first value of the object as an array of string rows; `None` stands
      for each of its error returns. */
  type Decoder = string -> Option<seq<Row>>

  /** The entries that survive the filter chain. */
  function Candidates(rows: seq<Row>, q: Query): seq<Entry>
    requires RowsWellFormed(rows)
  {
    FilterChain(ToEntries(rows), q)
  }

  /** The source panics on a body shorter than the patch window, on a row
      shorter than eight strings, and on a selected tag whose first `>`
      does not come before its last `<`. */
  predicate NoPanic(body: string, decode: Decoder, q: Query)
  {
    && |body| >= Window
    && match decode(PatchedTail(body))
       case None => true
       case Some(rows) =>
         && RowsWellFormed(rows)
         && (Candidates(rows, q) != [] ==> SliceInBounds(Latest(Candidates(rows, q)).ami))
  }

  /** What `get_latest` returns, stage by stage. */
  function LatestAmi(body: string, decode: Decoder, q: Query): Result<string, Error>
    requires NoPanic(body, decode, q)
  {
    match decode(PatchedTail(body))
    case None => Err(InvalidJson)
    case Some(rows) =>
      var c := Candidates(rows, q);
      if c == [] then Err(NotFound)
      else match ParseAmi(Latest(c).ami)
        case None => Err(BadAmiTag)
        case Some(id) => Ok(id)
  }

  method GetLatest(body: string, decode: Decoder, region: string,
                   releaseName: Option<string>, releaseNumber: Option<string>,
                   instanceType: Option<string>, architecture: Option<string>)
    returns (result: Result<string, Error>)
    requires NoPanic(body, decode, Query(region, releaseName, releaseNumber, instanceType, architecture))
    ensures result == LatestAmi(body, decode, Query(region, releaseName, releaseNumber, instanceType, architecture))
  {
    var q := Query(region, releaseName, releaseNumber, instanceType, architecture);
    var r := PatchTail(body);
    var j := decode(r);
    if j.None? {
      return Err(InvalidJson);
    }
    var rows := j.value;
    assert RowsWellFormed(rows);
    var matching := FilterChain(ToEntries(rows), q);
    assert matching == Candidates(rows, q);
    var popped := PopLatest(matching);
    if popped.None? {
      return Err(NotFound);
    }
    var entry := popped.value;
    var id := ParseAmi(entry.ami);
    if id.None? {
      return Err(BadAmiTag);
    }
    return Ok(id.value);
  }

  /** A decoding error is returned exactly when the patched body does not
      decode. */
  lemma InvalidJsonIff(body: string, decode: Decoder, q: Query)
    requires NoPanic(body, decode, q)
    ensures LatestAmi(body, decode, q) == Err(InvalidJson) <==> decode(PatchedTail(body)).None?
  {
  }

  /** "Could not find ami for criteria" is returned exactly when no row
      yields an entry meeting the query. */
  lemma NotFoundIff(body: string, decode: Decoder, q: Query)
    requires NoPanic(body, decode, q)
    ensures LatestAmi(body, decode, q) == Err(NotFound)
            <==> (decode(PatchedTail(body)).Some?
                  && var rows := decode(PatchedTail(body)).value;
                     forall k :: 0 <= k < |rows| ==> !Matches(ToEntry(rows[k]), q))
  {
    match decode(PatchedTail(body))
    case None =>
    case Some(rows) =>
      var es := ToEntries(rows);
      var c := Candidates(rows, q);
      if c == [] {
        forall k | 0 <= k < |rows| ensures !Matches(ToEntry(rows[k]), q) {
          assert EntryRow(es[k]) == EntryRow(ToEntry(rows[k]));
          assert es[k] == ToEntry(rows[k]);
          FilterChainMembers(es, q, es[k]);
        }
      } else {
        var e := c[0];
        FilterChainMembers(es, q, e);
        var k :| 0 <= k < |es| && es[k] == e;
        assert EntryRow(es[k]) == EntryRow(ToEntry(rows[k]));
        assert ToEntry(rows[k]) == e;
      }
  }

  /** An identifier is returned exactly when the query has matches and the
      chosen one - the latest date, the last in filtered order among equal
      dates - carries a tag it can be extracted from. */
  lemma OkIff(body: string, decode: Decoder, q: Query, id: string)
    requires NoPanic(body, decode, q)
    ensures LatestAmi(body, decode, q) == Ok(id)
            <==> (decode(PatchedTail(body)).Some?
                  && var c := Candidates(decode(PatchedTail(body)).value, q);
                     exists i :: IsLatest(c, i) && TagText(c[i].ami, id))
  {
    match decode(PatchedTail(body))
    case None =>
    case Some(rows) =>
      var c := Candidates(rows, q);
      if c != [] {
        LatestIsLatest(c);
        var i :| IsLatest(c, i) && Latest(c) == c[i];
        forall k | IsLatest(c, k) ensures k == i {
          IsLatestUnique(c, i, k);
        }
        ParseAmiIff(c[i].ami, id);
      }
  }

  /** "Failure parsing ami" is returned exactly when the query has matches
      and the chosen entry's tag lacks `>` or `<`. */
  lemma BadAmiTagIff(body: string, decode: Decoder, q: Query)
    requires NoPanic(body, decode, q)
    ensures LatestAmi(body, decode, q) == Err(BadAmiTag)
            <==> (decode(PatchedTail(body)).Some?
                  && var c := Candidates(decode(PatchedTail(body)).value, q);
                     exists i :: IsLatest(c, i) && ('>' !in c[i].ami || '<' !in c[i].ami))
  {
    match decode(PatchedTail(body))
    case None =>
    case Some(rows) =>
      var c := Candidates(rows, q);
      if c != [] {
        LatestIsLatest(c);
        var i :| IsLatest(c, i) && Latest(c) == c[i];
        forall k | IsLatest(c, k) ensures k == i {
          IsLatestUnique(c, i, k);
        }
      }
  }

  /** The identifier returned belongs to an entry that meets every
      criterion of the query. */
  lemma OkMatches(body: string, decode: Decoder, q: Query, id: string)
    requires NoPanic(body, decode, q)
    requires LatestAmi(body, decode, q) == Ok(id)
    ensures exists e :: e in ToEntries(decode(PatchedTail(body)).value) && Matches(e, q)
                        && TagText(e.ami, id)
  {
    var rows := decode(PatchedTail(body)).value;
    var c := Candidates(rows, q);
    LatestIsLatest(c);
    FilterChainMembers(ToEntries(rows), q, Latest(c));
  }

  /** Two catalogue entries that differ only in date and identifier. */
  const Older: Entry := Entry("us-east-1", "bionic", "18.04", "amd64", "hvm:ebs-ssd", "20200101",
                              Anchor("u", "ami-111"), "hvm")
  const Newer: Entry := Entry("us-east-1", "bionic", "18.04", "amd64", "hvm:ebs-ssd", "20200301",
                              Anchor("u", "ami-222"), "hvm")

  /** Their rows, older first. */
  const ScenarioRows: seq<Row> := [EntryRow(Older), EntryRow(Newer)]

  function ScenarioDecode(): Decoder
  {
    _ => Some(ScenarioRows)
  }

  function BionicQuery(architecture: string): Query
  {
    Query("us-east-1", Some("bionic"), None, Some("hvm:ebs-ssd"), Some(architecture))
  }

  lemma ScenarioEntries()
    ensures RowsWellFormed(ScenarioRows)
    ensures ToEntries(ScenarioRows) == [Older, Newer]
  {
    ToEntryOfEntryRow(Older);
    ToEntryOfEntryRow(Newer);
    assert ScenarioRows[1..] == [EntryRow(Newer)];
    assert ToEntries(ScenarioRows[1..][1..]) == [];
  }

  lemma ScenarioMatches(architecture: string)
    ensures Matches(Older, BionicQuery(architecture)) == (architecture == "amd64")
    ensures Matches(Newer, BionicQuery(architecture)) == (architecture == "amd64")
  {
  }

  /** The query's candidates among the two rows: both or neither. */
  lemma ScenarioCandidates(architecture: string)
    ensures RowsWellFormed(ScenarioRows)
    ensures Candidates(ScenarioRows, BionicQuery(architecture))
            == if architecture == "amd64" then [Older, Newer] else []
  {
    var q := BionicQuery(architecture);
    ScenarioEntries();
    ScenarioMatches(architecture);
    FilterChainAppend([Older], [Newer], q);
    FilterChainSingle(Older, q);
    FilterChainSingle(Newer, q);
    assert [Older] + [Newer] == [Older, Newer];
  }

  /** Of two matching rows the one with the later date wins. */
  lemma ScenarioLaterDateWins(body: string)
    requires |body| >= Window
    ensures NoPanic(body, ScenarioDecode(), BionicQuery("amd64"))
    ensures LatestAmi(body, ScenarioDecode(), BionicQuery("amd64")) == Ok("ami-222")
  {
    var q := BionicQuery("amd64");
    assert ScenarioDecode()(PatchedTail(body)) == Some(ScenarioRows);
    assert RowsWellFormed(ScenarioRows) && Candidates(ScenarioRows, q) == [Older, Newer] by {
      ScenarioCandidates("amd64");
    }
    ScenarioNewerChosen();
  }

  lemma ScenarioNewerChosen()
    ensures Latest([Older, Newer]) == Newer
    ensures SliceInBounds(Newer.ami) && ParseAmi(Newer.ami) == Some("ami-222")
  {
    assert Le(Older.date, Newer.date);
    LatestOfTwo(Older, Newer);
    ParseAnchor("u", "ami-222");
  }

  /** No row has the requested architecture, so nothing is found. */
  lemma ScenarioNoMatch(body: string)
    requires |body| >= Window
    ensures NoPanic(body, ScenarioDecode(), BionicQuery("arm64"))
    ensures LatestAmi(body, ScenarioDecode(), BionicQuery("arm64")) == Err(NotFound)
  {
    ScenarioCandidates("arm64");
  }
}
