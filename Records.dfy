/**
 * The application record of the tracker (the `University` row type) and the
 * per-status counts that both the dashboard and the analytics view derive
 * from a list of records.
 */
module Records {

  datatype Option<T> = None | Some(value: T)

  /** The five values the `status` column can take. */
  datatype Status = Applying | Waiting | Accepted | Waitlisted | Rejected

  /** The text stored in the `status` column for each status. */
  function StatusName(st: Status): string
  {
    match st
    case Applying => "Applying"
    case Waiting => "Waiting"
    case Accepted => "Accepted"
    case Waitlisted => "Waitlisted"
    case Rejected => "Rejected"
  }

  /**
   * One application record. The deadline is a timestamp in milliseconds
   * since the epoch; the scholarship percentage and the fee are reals.
   * The identifiers and the two server timestamps are opaque strings.
   */
  datatype University = University(
    id: string,
    name: string,
    country: string,
    deadline: int,
    scholarshipPercentage: real,
    applicationFees: real,
    notes: string,
    status: Status,
    userId: string,
    createdAt: string,
    updatedAt: string)

  /** `s.filter(u => u.status === st).length`, counted left to right. */
  function CountStatus(s: seq<University>, st: Status): (n: nat)
    ensures n <= |s|
  {
    if s == [] then 0
    else CountStatus(s[..|s| - 1], st) + (if s[|s| - 1].status == st then 1 else 0)
  }

  /** The positions in `s` that hold a record with status `st`. */
  function PositionsWith(s: seq<University>, st: Status): set<int>
  {
    set i | 0 <= i < |s| && s[i].status == st
  }

  /** A status count is the number of records that carry that status. */
  lemma {:induction false} CountStatusIsNumberOfRecords(s: seq<University>, st: Status)
    ensures CountStatus(s, st) == |PositionsWith(s, st)|
  {
    if s != [] {
      var n := |s| - 1;
      CountStatusIsNumberOfRecords(s[..n], st);
      PositionsWithSnoc(s, st);
    }
  }

  /** The positions of a non-empty list are those of all but its last element, plus the last one if it matches. */
  lemma PositionsWithSnoc(s: seq<University>, st: Status)
    requires s != []
    ensures var n := |s| - 1;
            PositionsWith(s, st) == PositionsWith(s[..n], st) + (if s[n].status == st then {n} else {})
    ensures |s| - 1 !in PositionsWith(s[..|s| - 1], st)
  {
    var n := |s| - 1;
    assert forall k :: 0 <= k < n ==> s[..n][k] == s[k];
  }

  /** Every record falls in exactly one status bucket, so the five counts add up to the length. */
  lemma {:induction false} StatusCountsPartition(s: seq<University>)
    ensures CountStatus(s, Applying) + CountStatus(s, Waiting) + CountStatus(s, Accepted)
          + CountStatus(s, Rejected) + CountStatus(s, Waitlisted) == |s|
  {
    if s != [] {
      StatusCountsPartition(s[..|s| - 1]);
    }
  }

  /** The `stats` object: the list length and one count per status. */
  datatype Stats = Stats(
    total: nat,
    applying: nat,
    waiting: nat,
    accepted: nat,
    rejected: nat,
    waitlisted: nat)
  {
    function Count(st: Status): nat
    {
      match st
      case Applying => applying
      case Waiting => waiting
      case Accepted => accepted
      case Waitlisted => waitlisted
      case Rejected => rejected
    }
  }

  /** The per-status summary of a record list. */
  function StatusStats(s: seq<University>): (r: Stats)
    ensures r.total == |s|
    ensures forall st :: r.Count(st) == |PositionsWith(s, st)|
    ensures r.applying + r.waiting + r.accepted + r.rejected + r.waitlisted == r.total
  {
    StatusCountsPartition(s);
    CountStatusIsNumberOfRecords(s, Applying);
    CountStatusIsNumberOfRecords(s, Waiting);
    CountStatusIsNumberOfRecords(s, Accepted);
    CountStatusIsNumberOfRecords(s, Rejected);
    CountStatusIsNumberOfRecords(s, Waitlisted);
    Stats(
      |s|,
      CountStatus(s, Applying),
      CountStatus(s, Waiting),
      CountStatus(s, Accepted),
      CountStatus(s, Rejected),
      CountStatus(s, Waitlisted))
  }
}
