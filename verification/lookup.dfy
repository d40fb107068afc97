/** The coworker search: the typed digits are matched against the end of each record's FullOrder. */
module Lookup {
  import opened Seqs
  import opened Strings
  import opened Cells

  /** The search box accepts at most this many characters. */
  const MaxQueryLength := 4

  /** What the search page shows for one query. */
  datatype Outcome =
    | Idle                   // empty box: no search is made
    | Found(record: Record)  // the card of the first matching record
    | NotFound               // the "not found" error: a full-length query without a match
    | NoMatchYet             // a shorter query without a match: nothing is shown

  /** `df['FullOrder'].str.endswith(query)` for one record. */
  predicate IsMatch(r: Record, query: string) {
    EndsWith(r.fullOrder, query)
  }

  /** `df[mask]`: the matching records, in table order. */
  function Matching(records: seq<Record>, query: string): (m: seq<Record>)
    ensures forall r :: r in m <==> r in records && IsMatch(r, query)
    ensures forall r :: multiset(m)[r] == if IsMatch(r, query) then multiset(records)[r] else 0
    ensures IsSubsequence(m, records)
  {
    if records == [] then []
    else
      assert records == [records[0]] + records[1..];
      if IsMatch(records[0], query) then [records[0]] + Matching(records[1..], query)
      else Matching(records[1..], query)
  }

  /** The lookup of `coworker_mode` on the table `get_data` returned. */
  function Search(records: seq<Record>, query: string): (o: Outcome)
    requires |query| <= MaxQueryLength
    ensures o.Idle? <==> query == ""
    ensures o.Found? ==> query != "" && o.record in records && IsMatch(o.record, query)
    ensures o.NotFound? <==> query != "" && |query| == MaxQueryLength && forall r :: r in records ==> !IsMatch(r, query)
    ensures o.NoMatchYet? <==> query != "" && |query| < MaxQueryLength && forall r :: r in records ==> !IsMatch(r, query)
  {
    if query == "" then Idle
    else
      var m := Matching(records, query);
      if m != [] then Found(m[0])
      else if |query| == MaxQueryLength then NotFound
      else NoMatchYet
  }

  /** The first match in table order heads the list of matches. */
  lemma {:induction false} FirstMatchHeadsMatching(records: seq<Record>, query: string, i: nat)
    requires i < |records| && IsMatch(records[i], query)
    requires forall j :: 0 <= j < i ==> !IsMatch(records[j], query)
    ensures Matching(records, query) != [] && Matching(records, query)[0] == records[i]
    decreases i
  {
    if i > 0 {
      var tail := records[1..];
      assert Matching(records, query) == Matching(tail, query);
      forall j | 0 <= j < i - 1 ensures !IsMatch(tail[j], query) {
        assert tail[j] == records[j + 1];
      }
      assert tail[i - 1] == records[i];
      FirstMatchHeadsMatching(tail, query, i - 1);
    }
  }

  /** The record shown is the first record, in table order, whose FullOrder ends with the query. */
  lemma FirstMatchShown(records: seq<Record>, query: string, i: nat)
    requires 0 < |query| <= MaxQueryLength
    requires i < |records| && IsMatch(records[i], query)
    requires forall j :: 0 <= j < i ==> !IsMatch(records[j], query)
    ensures Search(records, query) == Found(records[i])
  {
    FirstMatchHeadsMatching(records, query, i);
  }
}
