/**
 * The background-job table jobsQueue: MAX_NUM_JOBS pid slots, 0 meaning
 * free. The parent stores each background child's pid in the first free
 * slot; the jobs built-in lists the slots from 0 up to the first entry that
 * is not a positive pid.
 */
module Jobs {
  import opened ShellTypes

  /** One line of the jobs listing: the slot index and the pid in it. */
  datatype JobRow = JobRow(jobNum: nat, pid: int)

  /** No negative entry, and the occupied slots come before the free ones. */
  predicate WellFormed(t: seq<int>)
  {
    (forall k :: 0 <= k < |t| ==> t[k] >= 0) &&
    (forall i, j :: 0 <= i < j < |t| && t[j] != 0 ==> t[i] != 0)
  }

  /** The table after pid is stored in its first free slot; a full table is left as it is. */
  function Inserted(t: seq<int>, pid: int): (u: seq<int>)
    ensures |u| == |t|
  {
    match FirstIndex(t, 0)
    case None => t
    case Some(p) => t[p := pid]
  }

  /** The rows the listing prints from slot k on, stopping at the first entry that is not positive. */
  function ListingFrom(t: seq<int>, k: nat): seq<JobRow>
    requires k <= |t|
    decreases |t| - k
  {
    if k == |t| || t[k] <= 0 then [] else [JobRow(k, t[k])] + ListingFrom(t, k + 1)
  }

  /** The rows the jobs built-in prints. */
  function Listing(t: seq<int>): seq<JobRow>
  {
    ListingFrom(t, 0)
  }

  // ---------------------------------------------------------------------------
  // Properties of insertion and listing

  /**
   * Insertion writes pid into the lowest-index free slot and changes no
   * other slot; when no slot is free nothing changes.
   */
  lemma InsertedSpec(t: seq<int>, pid: int)
    ensures 0 !in t ==> Inserted(t, pid) == t
    ensures forall k :: 0 <= k < |t| && t[k] == 0 && 0 !in t[..k] ==> Inserted(t, pid)[k] == pid
    ensures forall k :: 0 <= k < |t| && (t[k] != 0 || 0 in t[..k]) ==> Inserted(t, pid)[k] == t[k]
  {
    match FirstIndex(t, 0)
    case None =>
    case Some(p) =>
      forall k | 0 <= k < |t| && t[k] == 0 && 0 !in t[..k] ensures k == p {
      }
  }

  /** Inserting a positive pid keeps the table well formed. */
  lemma InsertKeepsWellFormed(t: seq<int>, pid: int)
    requires WellFormed(t) && pid > 0
    ensures WellFormed(Inserted(t, pid))
  {
    match FirstIndex(t, 0)
    case None =>
    case Some(p) =>
      var u := t[p := pid];
      forall i, j | 0 <= i < j < |u| && u[j] != 0 ensures u[i] != 0 {
        if i < p {
          assert t[..p][i] == t[i];
        }
      }
  }

  /** ListingFrom from k lists the positive run that starts at k, each pid with its slot. */
  lemma {:induction false} ListingFromSpec(t: seq<int>, k: nat)
    requires k <= |t|
    ensures k + |ListingFrom(t, k)| <= |t|
    ensures k + |ListingFrom(t, k)| == |t| || t[k + |ListingFrom(t, k)|] <= 0
    ensures forall q :: k <= q < k + |ListingFrom(t, k)| ==>
      t[q] > 0 && ListingFrom(t, k)[q - k] == JobRow(q, t[q])
    decreases |t| - k
  {
    if k < |t| && t[k] > 0 {
      ListingFromSpec(t, k + 1);
      var rows, rest := ListingFrom(t, k), ListingFrom(t, k + 1);
      assert rows == [JobRow(k, t[k])] + rest;
    }
  }

  /**
   * jobs reports exactly the longest prefix of positive pids: its rows are
   * slots 0..n-1 in order, each with its pid, and slot n is past the end or
   * not positive.
   */
  lemma ListingIsPositivePrefix(t: seq<int>)
    ensures var n := |Listing(t)|;
      n <= |t| && (n == |t| || t[n] <= 0) &&
      forall r :: 0 <= r < n ==> t[r] > 0 && Listing(t)[r] == JobRow(r, t[r])
  {
    var rows := ListingFrom(t, 0);
    ListingFromSpec(t, 0);
    assert Listing(t) == rows;
  }

  /** In a well-formed table the listing shows every occupied slot and only those. */
  lemma ListingShowsAllJobs(t: seq<int>)
    requires WellFormed(t)
    ensures forall k :: 0 <= k < |t| ==> (t[k] != 0 <==> k < |Listing(t)|)
  {
    ListingIsPositivePrefix(t);
  }

  /** Any run of n positive slots that ends the positive prefix is the listing. */
  lemma ListingIs(t: seq<int>, n: nat)
    requires n <= |t| && (n == |t| || t[n] <= 0)
    requires forall r :: 0 <= r < n ==> t[r] > 0
    ensures Listing(t) == seq(n, r requires 0 <= r < n => JobRow(r, t[r]))
  {
    ListingIsPositivePrefix(t);
    var m := |Listing(t)|;
    assert m == n;
  }

  /**
   * A background job added to a well-formed table that has room shows up as
   * the new last row of the listing, and the earlier rows stay as they were.
   */
  lemma ListingAfterInsert(t: seq<int>, pid: int)
    requires WellFormed(t) && pid > 0 && 0 in t
    ensures Listing(Inserted(t, pid)) == Listing(t) + [JobRow(|Listing(t)|, pid)]
  {
    var p := FirstIndex(t, 0).value;
    var u := Inserted(t, pid);
    forall r | 0 <= r < p ensures t[r] > 0 {
      assert t[..p][r] == t[r];
    }
    ListingIs(t, p);
    assert p + 1 < |t| ==> u[p + 1] == 0;
    ListingIs(u, p + 1);
  }

  // ---------------------------------------------------------------------------
  // The table as the shell keeps it

  class JobTable {
    /** jobsQueue: the pid of each background job, 0 for a free slot. */
    var slots: array<int>

    ghost predicate Valid()
      reads this, slots
    {
      slots.Length == MaxNumJobs && WellFormed(slots[..])
    }

    /** The table as main starts with it: every slot free. */
    constructor ()
      ensures Valid() && fresh(slots)
      ensures forall k :: 0 <= k < MaxNumJobs ==> slots[k] == 0
    {
      slots := new int[MaxNumJobs](_ => 0);
    }

    /**
     * The parent's insertion of a background child's pid: the scan from
     * slot 0 stores pid in the first free slot and stops.
     */
    method AddJob(pid: int)
      requires Valid() && pid > 0
      modifies slots
      ensures Valid()
      ensures slots[..] == Inserted(old(slots[..]), pid)
    {
      ghost var t := slots[..];
      var jobNum := 0;
      while jobNum < MaxNumJobs
        invariant 0 <= jobNum <= MaxNumJobs
        invariant slots[..] == t
        invariant 0 !in t[..jobNum]
      {
        if slots[jobNum] == 0 {
          slots[jobNum] := pid;
          jobNum := jobNum + 1;
          break;
        }
        assert t[..jobNum + 1] == t[..jobNum] + [t[jobNum]];
        jobNum := jobNum + 1;
      }
      assert jobNum == MaxNumJobs ==> t[..jobNum] == t;
      InsertKeepsWellFormed(t, pid);
    }

    /** The jobs built-in: the rows printed, one per slot up to the first non-positive entry. */
    method ListJobs() returns (rows: seq<JobRow>)
      requires slots.Length == MaxNumJobs
      ensures rows == Listing(slots[..])
    {
      ghost var t := slots[..];
      rows := [];
      var jobNum := 0;
      while jobNum < MaxNumJobs
        invariant 0 <= jobNum <= MaxNumJobs
        invariant Listing(t) == rows + ListingFrom(t, jobNum)
      {
        if slots[jobNum] > 0 {
          AppendAssoc(rows, [JobRow(jobNum, slots[jobNum])], ListingFrom(t, jobNum + 1));
          rows := rows + [JobRow(jobNum, slots[jobNum])];
        } else {
          break;
        }
        jobNum := jobNum + 1;
      }
      assert rows + [] == rows;
    }
  }

  // ---------------------------------------------------------------------------
  // The insertion loop as written

  /** The state of the insertion loop: still scanning at jobNum, or left the loop. */
  datatype ScanState = Scanning(table: seq<int>, jobNum: nat) | Stopped(table: seq<int>)

  /**
   * One turn of the insertion loop as written: the loop test, then the body,
   * which moves jobNum (and breaks out) only when the slot is free.
   */
  function StepAsWritten(s: ScanState, pid: int): (s': ScanState)
    requires |s.table| == MaxNumJobs
    ensures |s'.table| == MaxNumJobs
  {
    match s
    case Stopped(_) => s
    case Scanning(t, jobNum) =>
      if jobNum >= MaxNumJobs then Stopped(t)
      else if t[jobNum] == 0 then Stopped(t[jobNum := pid])
      else s
  }

  /** n turns of the insertion loop as written. */
  function RunAsWritten(s: ScanState, pid: int, n: nat): (s': ScanState)
    requires |s.table| == MaxNumJobs
    ensures |s'.table| == MaxNumJobs
    decreases n
  {
    if n == 0 then s else RunAsWritten(StepAsWritten(s, pid), pid, n - 1)
  }

  /**
   * As written, the loop never leaves slot 0 when slot 0 is occupied: after
   * any number of turns it is still scanning slot 0 with the table unchanged.
   */
  lemma {:induction false} InsertionSpinsAsWritten(t: seq<int>, pid: int, n: nat)
    requires |t| == MaxNumJobs && t[0] != 0
    ensures RunAsWritten(Scanning(t, 0), pid, n) == Scanning(t, 0)
  {
    if n > 0 {
      InsertionSpinsAsWritten(t, pid, n - 1);
    }
  }

  /** As written, the loop does insert correctly when slot 0 is free, in one turn. */
  lemma InsertionAsWrittenWhenSlotZeroFree(t: seq<int>, pid: int)
    requires |t| == MaxNumJobs && t[0] == 0
    ensures RunAsWritten(Scanning(t, 0), pid, 1) == Stopped(Inserted(t, pid))
  {
  }
}
