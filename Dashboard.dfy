/**
 * The dashboard list view: the records it holds, its loading flag, the
 * fetch that fills it, the confirmed delete that drops a row once the
 * backend reports success, and the icon and badge colour of each status.
 */
module Dashboard {
  import opened Records

  // ---------------------------------------------------------------------
  // Removing a record by id

  /** `s.filter(u => u.id !== id)`. */
  function RemoveById(s: seq<University>, id: string): (r: seq<University>)
    ensures |r| <= |s|
    ensures forall u :: u in r <==> u in s && u.id != id
  {
    if s == [] then []
    else
      assert forall u :: u in s <==> u == s[0] || u in s[1..];
      (if s[0].id != id then [s[0]] else []) + RemoveById(s[1..], id)
  }

  /** `a` can be obtained from `b` by dropping elements, without reordering. */
  ghost predicate IsSubsequence<T>(a: seq<T>, b: seq<T>)
    decreases |b|
  {
    if a == [] then true
    else if b == [] then false
    else (a[0] == b[0] && IsSubsequence(a[1..], b[1..])) || IsSubsequence(a, b[1..])
  }

  /** Every record whose id differs stays, as many times as before; records with that id all go. */
  lemma {:induction false} RemoveByIdMultiplicity(s: seq<University>, id: string, u: University)
    ensures multiset(RemoveById(s, id))[u] == if u.id == id then 0 else multiset(s)[u]
  {
    if s != [] {
      var rest := RemoveById(s[1..], id);
      RemoveByIdMultiplicity(s[1..], id, u);
      assert s == [s[0]] + s[1..];
      assert multiset(s) == multiset{s[0]} + multiset(s[1..]);
      if s[0].id != id {
        assert RemoveById(s, id) == [s[0]] + rest;
      } else {
        assert RemoveById(s, id) == rest;
      }
    }
  }

  /** The survivors keep their original relative order. */
  lemma {:induction false} RemoveByIdKeepsOrder(s: seq<University>, id: string)
    ensures IsSubsequence(RemoveById(s, id), s)
  {
    if s != [] {
      var rest := RemoveById(s[1..], id);
      RemoveByIdKeepsOrder(s[1..], id);
      if s[0].id != id {
        assert ([s[0]] + rest)[1..] == rest;
      } else {
        assert RemoveById(s, id) == rest;
      }
    }
  }

  /** Deleting the same id twice leaves the same list as deleting it once. */
  lemma {:induction false} RemoveByIdIdempotent(s: seq<University>, id: string)
    ensures RemoveById(RemoveById(s, id), id) == RemoveById(s, id)
  {
    if s != [] {
      RemoveByIdIdempotent(s[1..], id);
      var rest := RemoveById(s[1..], id);
      if s[0].id != id {
        assert RemoveById(s, id) == [s[0]] + rest;
        assert ([s[0]] + rest)[1..] == rest;
      } else {
        assert RemoveById(s, id) == rest;
      }
    }
  }

  // ---------------------------------------------------------------------
  // Status icon and badge colour

  /** The icon drawn next to a status. */
  datatype Icon = CheckCircle | XCircle | AlertCircle | Clock | Minus

  /** `getStatusIcon`: one icon per named case, `Minus` for everything else. */
  function StatusIcon(st: Status): (icon: Icon)
    ensures icon == Minus <==> st == Applying
  {
    match st
    case Accepted => CheckCircle
    case Rejected => XCircle
    case Waitlisted => AlertCircle
    case Waiting => Clock
    case _ => Minus
  }

  /** Badge classes shared by the four named cases of `getStatusColor`. */
  const NamedStatusClasses: string := "bg-red/10 text-red border-red/20"

  /** Badge classes of the default case of `getStatusColor`. */
  const DefaultStatusClasses: string := "bg-neutral-lightGray text-neutral-mediumGray border-neutral-mediumGray/20"

  /** `getStatusColor`. */
  function StatusColor(st: Status): (classes: string)
    ensures classes == DefaultStatusClasses <==> st == Applying
    ensures classes == NamedStatusClasses <==> st != Applying
  {
    match st
    case Accepted => NamedStatusClasses
    case Rejected => NamedStatusClasses
    case Waitlisted => NamedStatusClasses
    case Waiting => NamedStatusClasses
    case _ => DefaultStatusClasses
  }

  /**
   * The four named statuses get four different icons, none of them the
   * default one; `Applying` is the one status that falls to the default.
   */
  lemma StatusIconsDistinct(a: Status, b: Status)
    ensures a != b && a != Applying && b != Applying ==> StatusIcon(a) != StatusIcon(b)
    ensures StatusIcon(a) == Minus <==> a == Applying
  {
  }

  // ---------------------------------------------------------------------
  // Backend outcomes, as seen by the view

  /** How `fetchUniversities` can end. */
  datatype FetchOutcome =
    | NoUser                                      // getUser returned no user
    | QueryFailed(message: string)                // the select returned an error
    | Fetched(data: Option<seq<University>>)      // the select returned data (possibly null)
    | Threw                                       // a call threw

  /** How the delete request can end, once it has been issued. */
  datatype DeleteOutcome =
    | Deleted
    | DeleteFailed(message: string)
    | DeleteThrew

  // ---------------------------------------------------------------------
  // The view's state

  class DashboardPage {
    /** The records shown in the table. */
    var universities: seq<University>
    /** Whether the spinner is shown instead of the table. */
    var loading: bool
    /** Ids of the delete requests sent to the backend, oldest first. */
    var deleteRequests: seq<string>

    constructor ()
      ensures universities == [] && loading && deleteRequests == []
    {
      universities := [];
      loading := true;
      deleteRequests := [];
    }

    /** The `stats` object derived from the current list. */
    function Stats(): (r: Stats)
      reads this
      ensures r.total == |universities|
      ensures r.applying + r.waiting + r.accepted + r.rejected + r.waitlisted == r.total
      ensures forall st :: r.Count(st) == |PositionsWith(universities, st)|
    {
      StatusStats(universities)
    }

    /**
     * `fetchUniversities`: whatever the outcome, the spinner stops; the list
     * is replaced only by returned data, and by the empty list when the data
     * is null.
     */
    method FetchUniversities(outcome: FetchOutcome)
      modifies this
      ensures !loading
      ensures outcome.Fetched? ==> universities == (if outcome.data.Some? then outcome.data.value else [])
      ensures !outcome.Fetched? ==> universities == old(universities)
      ensures deleteRequests == old(deleteRequests)
    {
      match outcome {
        case NoUser =>
        case QueryFailed(_) =>
        case Fetched(data) =>
          universities := if data.Some? then data.value else [];
        case Threw =>
      }
      loading := false;
    }

    /**
     * `handleDelete`: nothing happens unless the user confirms; a confirmed
     * delete sends one request, and the row leaves the list only when the
     * backend reports success.
     */
    method HandleDelete(id: string, confirmed: bool, outcome: DeleteOutcome)
      modifies this
      ensures deleteRequests == if confirmed then old(deleteRequests) + [id] else old(deleteRequests)
      ensures universities == if confirmed && outcome == Deleted then RemoveById(old(universities), id)
                              else old(universities)
      ensures loading == old(loading)
    {
      if !confirmed {
        return;
      }
      deleteRequests := deleteRequests + [id];
      match outcome {
        case Deleted =>
          universities := RemoveById(universities, id);
        case DeleteFailed(_) =>
        case DeleteThrew =>
      }
    }
  }
}
