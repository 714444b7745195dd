/** The records of the image catalogue, how a decoded JSON row becomes one,
    and the chain of filters `get_latest` runs over them. */
module Catalog {
  import opened Wrappers
  import opened Filtering

  /** One published image: the eight strings of one catalogue row. */
  datatype Entry = Entry(
    region: string,
    releaseName: string,
    releaseNumber: string,
    architecture: string,
    instanceType: string,
    date: string,
    ami: string,
    hvm: string)

  /** A row of the decoded JSON array. */
  type Row = seq<string>

  /** Number of positions a row is read at. */
  const RowWidth: nat := 8

  /** The source indexes `fs[0]` to `fs[7]`, which panics on a shorter row. */
  predicate RowsWellFormed(rows: seq<Row>)
  {
    forall i :: 0 <= i < |rows| ==> |rows[i]| >= RowWidth
  }

  /** The fields of an entry in row order. */
  function EntryRow(e: Entry): (row: Row)
    ensures |row| == RowWidth
  {
    [e.region, e.releaseName, e.releaseNumber, e.architecture,
     e.instanceType, e.date, e.ami, e.hvm]
  }

  /** The positional mapping of one row; elements past index 7 are ignored. */
  function ToEntry(row: Row): (e: Entry)
    requires |row| >= RowWidth
    ensures EntryRow(e) == row[..RowWidth]
  {
    Entry(row[0], row[1], row[2], row[3], row[4], row[5], row[6], row[7])
  }

  /** Reading the fields of an entry back as a row gives the entry again. */
  lemma ToEntryOfEntryRow(e: Entry)
    ensures ToEntry(EntryRow(e)) == e
  {
  }

  /** Two rows that agree on the first eight positions give the same entry. */
  lemma ToEntryIgnoresExtra(row: Row, extra: Row)
    requires |row| >= RowWidth
    ensures ToEntry(row + extra) == ToEntry(row)
  {
    assert (row + extra)[..RowWidth] == row[..RowWidth];
    assert EntryRow(ToEntry(row + extra)) == EntryRow(ToEntry(row));
  }

  /** `map` over the rows: one entry per row, in row order. */
  function ToEntries(rows: seq<Row>): (es: seq<Entry>)
    requires RowsWellFormed(rows)
    ensures |es| == |rows|
    ensures forall i :: 0 <= i < |rows| ==> EntryRow(es[i]) == rows[i][..RowWidth]
  {
    if rows == [] then []
    else [ToEntry(rows[0])] + ToEntries(rows[1..])
  }

  /** The search criteria: the region is required, every other field is
      optional and `None` lets every entry through. */
  datatype Query = Query(
    region: string,
    releaseName: Option<string>,
    releaseNumber: Option<string>,
    instanceType: Option<string>,
    architecture: Option<string>)

  /** The fields an optional criterion can constrain. */
  datatype Field = ReleaseName | ReleaseNumber | InstanceType | Architecture

  function FieldOf(e: Entry, f: Field): string
  {
    match f
    case ReleaseName => e.releaseName
    case ReleaseNumber => e.releaseNumber
    case InstanceType => e.instanceType
    case Architecture => e.architecture
  }

  /** The closure of the first `.filter`. */
  function RegionIs(region: string): Entry -> bool
  {
    (e: Entry) => e.region == region
  }

  /** The closure of one optional `.filter`: `Some(x)` demands equality. */
  function FieldIs(f: Field, want: Option<string>): Entry -> bool
  {
    (e: Entry) => match want
                  case None => true
                  case Some(x) => FieldOf(e, f) == x
  }

  /** The five filters in the order the source chains them. */
  function FilterChain(es: seq<Entry>, q: Query): (r: seq<Entry>)
    ensures |r| <= |es|
    ensures forall e :: e in r ==> e in es && Matches(e, q)
  {
    var byRegion := Keep(es, RegionIs(q.region));
    var byName := Keep(byRegion, FieldIs(ReleaseName, q.releaseName));
    var byNumber := Keep(byName, FieldIs(ReleaseNumber, q.releaseNumber));
    var byType := Keep(byNumber, FieldIs(InstanceType, q.instanceType));
    Keep(byType, FieldIs(Architecture, q.architecture))
  }

  /** An entry meets every criterion of the query, stated field by field. */
  predicate Matches(e: Entry, q: Query)
  {
    && e.region == q.region
    && (q.releaseName.Some? ==> e.releaseName == q.releaseName.value)
    && (q.releaseNumber.Some? ==> e.releaseNumber == q.releaseNumber.value)
    && (q.instanceType.Some? ==> e.instanceType == q.instanceType.value)
    && (q.architecture.Some? ==> e.architecture == q.architecture.value)
  }

  function MatchesQuery(q: Query): Entry -> bool
  {
    (e: Entry) => Matches(e, q)
  }

  /** The chain is one filter by `Matches`. */
  lemma {:induction false} FilterChainIsMatches(es: seq<Entry>, q: Query)
    ensures FilterChain(es, q) == Keep(es, MatchesQuery(q))
  {
    var p1 := RegionIs(q.region);
    var p2 := FieldIs(ReleaseName, q.releaseName);
    var p3 := FieldIs(ReleaseNumber, q.releaseNumber);
    var p4 := FieldIs(InstanceType, q.instanceType);
    var p5 := FieldIs(Architecture, q.architecture);
    var p12: Entry -> bool := e => p1(e) && p2(e);
    var p123: Entry -> bool := e => p12(e) && p3(e);
    var p1234: Entry -> bool := e => p123(e) && p4(e);
    KeepFuse(es, p1, p2, p12);
    KeepFuse(es, p12, p3, p123);
    KeepFuse(es, p123, p4, p1234);
    forall e ensures MatchesQuery(q)(e) == (p1234(e) && p5(e)) {
      MatchesByFilters(e, q);
    }
    KeepFuse(es, p1234, p5, MatchesQuery(q));
  }

  lemma MatchesByFilters(e: Entry, q: Query)
    ensures Matches(e, q) == (RegionIs(q.region)(e) && FieldIs(ReleaseName, q.releaseName)(e)
                              && FieldIs(ReleaseNumber, q.releaseNumber)(e)
                              && FieldIs(InstanceType, q.instanceType)(e)
                              && FieldIs(Architecture, q.architecture)(e))
  {
  }

  /** Soundness and completeness: an entry survives exactly when it is in
      the input and meets every criterion. */
  lemma FilterChainMembers(es: seq<Entry>, q: Query, e: Entry)
    ensures e in FilterChain(es, q) <==> e in es && Matches(e, q)
  {
    FilterChainIsMatches(es, q);
    if e in es && Matches(e, q) {
      KeepComplete(es, MatchesQuery(q), e);
    }
  }

  /** Survivors keep their relative order. */
  lemma FilterChainAppend(a: seq<Entry>, b: seq<Entry>, q: Query)
    ensures FilterChain(a + b, q) == FilterChain(a, q) + FilterChain(b, q)
  {
    FilterChainIsMatches(a + b, q);
    FilterChainIsMatches(a, q);
    FilterChainIsMatches(b, q);
    KeepAppend(a, b, MatchesQuery(q));
  }

  /** One entry survives alone exactly when it matches. */
  lemma FilterChainSingle(e: Entry, q: Query)
    ensures FilterChain([e], q) == if Matches(e, q) then [e] else []
  {
    FilterChainIsMatches([e], q);
  }

  /** With no optional criterion the result is the entries of the region. */
  lemma FilterChainRegionOnly(es: seq<Entry>, region: string)
    ensures FilterChain(es, Query(region, None, None, None, None)) == Keep(es, RegionIs(region))
  {
    var q := Query(region, None, None, None, None);
    var s := Keep(es, RegionIs(region));
    KeepAll(s, FieldIs(ReleaseName, None));
    KeepAll(s, FieldIs(ReleaseNumber, None));
    KeepAll(s, FieldIs(InstanceType, None));
    KeepAll(s, FieldIs(Architecture, None));
  }
}
