/**
 The counting part of `displayResults`: one pass over the records, a warning
 or error tag is counted as such and every other tag as valid; the success
 banner appears only when neither warnings nor errors were seen.
 */
module Summary {
  import opened Types

  datatype Tally = Tally(ok: nat, warning: nat, errors: nat)

  /** The status tags of the records, in order. */
  function Statuses(rs: seq<BackupResult>): (ss: seq<string>)
    ensures |ss| == |rs|
  {
    seq(|rs|, i requires 0 <= i < |rs| => rs[i].status)
  }

  /** How often the tag `s` occurs among the records. */
  function Occurrences(rs: seq<BackupResult>, s: string): nat
  {
    multiset(Statuses(rs))[s]
  }

  /** One step of the counting loop. */
  function Count(t: Tally, r: BackupResult): Tally
  {
    if r.status == StatusWarning then t.(warning := t.warning + 1)
    else if r.status == StatusError then t.(errors := t.errors + 1)
    else t.(ok := t.ok + 1)
  }

  lemma StatusesSnoc(rs: seq<BackupResult>)
    requires rs != []
    ensures Statuses(rs) == Statuses(rs[..|rs| - 1]) + [rs[|rs| - 1].status]
  {
  }

  /**
   The tally of the loop over the records, in order: every record is counted
   once, warnings and errors are counted by their tag, and the rest are valid.
   */
  function Summarize(rs: seq<BackupResult>): (t: Tally)
    ensures t.ok + t.warning + t.errors == |rs|
    ensures t.warning == Occurrences(rs, StatusWarning)
    ensures t.errors == Occurrences(rs, StatusError)
  {
    if rs == [] then Tally(0, 0, 0)
    else
      StatusesSnoc(rs);
      Count(Summarize(rs[..|rs| - 1]), rs[|rs| - 1])
  }

  /** Whether the success banner is printed. */
  predicate Succeeded(rs: seq<BackupResult>)
  {
    var t := Summarize(rs);
    t.errors == 0 && t.warning == 0
  }

  /** The banner appears exactly when no record is tagged as a warning or an error. */
  lemma SucceededIffClean(rs: seq<BackupResult>)
    ensures Succeeded(rs) <==>
      forall r :: r in rs ==> r.status != StatusWarning && r.status != StatusError
  {
    var ss := Statuses(rs);
    if !Succeeded(rs) {
      var s := if Occurrences(rs, StatusWarning) > 0 then StatusWarning else StatusError;
      assert s in multiset(ss);
      var i :| 0 <= i < |ss| && ss[i] == s;
      assert rs[i] in rs;
    } else {
      forall r | r in rs
        ensures r.status != StatusWarning && r.status != StatusError
      {
        var i :| 0 <= i < |rs| && rs[i] == r;
        assert ss[i] in multiset(ss);
      }
    }
  }

  lemma {:induction false} OccurrencesOfTags(rs: seq<BackupResult>)
    requires forall r :: r in rs ==> IsStatus(r.status)
    ensures Occurrences(rs, StatusOk) + Occurrences(rs, StatusWarning)
      + Occurrences(rs, StatusError) == |rs|
  {
    if rs != [] {
      var init := rs[..|rs| - 1];
      assert forall r :: r in init ==> r in rs;
      OccurrencesOfTags(init);
      StatusesSnoc(rs);
    }
  }

  /** When every record carries one of the three tags, the valid count is the number of OK records. */
  lemma OkCountsOkRecords(rs: seq<BackupResult>)
    requires forall r :: r in rs ==> IsStatus(r.status)
    ensures Summarize(rs).ok == Occurrences(rs, StatusOk)
  {
    OccurrencesOfTags(rs);
  }
}
