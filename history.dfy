/** The `historyWithCosts` map of `GET` in app/api/videos/history/route.ts: each
    `(video, transcript or null)` row the repository lists becomes the row with a
    token and cost summary attached. */
module History {
  import opened Wrappers
  import opened Entities
  import TokenCalculator
  import Utils

  /** A row of `getAllVideosWithTranscripts`. */
  datatype Row = Row(video: Video, transcript: Option<Transcript>)

  datatype HistoryTokenUsage = HistoryTokenUsage(inputTokens: nat, outputTokens: nat, totalCost: real)

  datatype HistoryEntry = HistoryEntry(video: Video, transcript: Option<Transcript>, tokenUsage: HistoryTokenUsage)

  /** The summary of one row: zero without a transcript; with one, its token counts
      and the total cost of them. */
  function EntryFor(row: Row): (r: HistoryEntry)
    ensures r.video == row.video && r.transcript == row.transcript
    ensures row.transcript.None? ==> r.tokenUsage == HistoryTokenUsage(0, 0, 0.0)
    ensures row.transcript.Some? ==>
      && r.tokenUsage.inputTokens == row.transcript.value.inputTokens
      && r.tokenUsage.outputTokens == row.transcript.value.outputTokens
    ensures r.tokenUsage.totalCost >= 0.0 && TokenCalculator.IsCentiCent(r.tokenUsage.totalCost)
  {
    var usage :=
      if row.transcript.Some? then
        var inputTokens, outputTokens := row.transcript.value.inputTokens, row.transcript.value.outputTokens;
        HistoryTokenUsage(inputTokens, outputTokens, TokenCalculator.CalculateCost(inputTokens, outputTokens).totalCost)
      else HistoryTokenUsage(0, 0, 0.0);
    HistoryEntry(row.video, row.transcript, usage)
  }

  /** `videosWithTranscripts.map(...)`: one entry per row, in the same order. */
  function HistoryWithCosts(rows: seq<Row>): (r: seq<HistoryEntry>)
    ensures |r| == |rows|
    ensures forall i :: 0 <= i < |rows| ==> r[i] == EntryFor(rows[i])
  {
    if rows == [] then [] else [EntryFor(rows[0])] + HistoryWithCosts(rows[1..])
  }

  /** Each entry passes its video and transcript through, and its cost is the total
      `TokenCalculator.calculateCost` gives for the entry's own token counts, which is
      also what the client's `calculateCost` shows for them. */
  lemma HistoryCostsAgree(rows: seq<Row>, i: nat)
    requires i < |rows|
    ensures var e := HistoryWithCosts(rows)[i];
      && e.video == rows[i].video && e.transcript == rows[i].transcript
      && e.tokenUsage.totalCost == TokenCalculator.CalculateCost(e.tokenUsage.inputTokens, e.tokenUsage.outputTokens).totalCost
      && e.tokenUsage.totalCost == Utils.CalculateCost(e.tokenUsage.inputTokens, e.tokenUsage.outputTokens)
  {
    var e := HistoryWithCosts(rows)[i];
    Utils.CalculateCostIsTotal(e.tokenUsage.inputTokens, e.tokenUsage.outputTokens);
    if rows[i].transcript.None? {
      TokenCalculator.CostOfNothing();
    }
  }

  /** Listing two batches of rows one after the other lists their entries one after
      the other. */
  lemma {:induction false} HistoryOfConcatenation(a: seq<Row>, b: seq<Row>)
    ensures HistoryWithCosts(a + b) == HistoryWithCosts(a) + HistoryWithCosts(b)
  {
    var l, r := HistoryWithCosts(a + b), HistoryWithCosts(a) + HistoryWithCosts(b);
    assert |l| == |r|;
    forall i | 0 <= i < |l| ensures l[i] == r[i] {
      if i < |a| {
        assert (a + b)[i] == a[i];
      } else {
        assert (a + b)[i] == b[i - |a|];
      }
    }
  }
}
