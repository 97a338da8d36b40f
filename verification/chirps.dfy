/**
 * The decision rules of the chirp handlers in chirps.go: how
 * `handlerGetChirps` orders the chirps it lists, and when `handlerDelete`
 * lets a user delete a chirp.
 */
module Chirps {
  import opened Options
  import Auth

  /** `uuid.UUID`: a 128-bit identifier. */
  newtype Uuid = x: int | 0 <= x < 0x1_0000_0000_0000_0000_0000_0000_0000_0000

  /** A chirp row. Timestamps are instants on an integer time line. */
  datatype Chirp = Chirp(id: Uuid, createdAt: int, updatedAt: int, body: string, userId: Uuid)

  /** The two listing orders. */
  datatype SortOrder = Asc | Desc

  /** The normalisation of the `sort` query value: only the exact value
      "desc" selects descending order; anything else, the empty value and
      other spellings such as "DESC" included, means ascending. */
  function NormaliseSortOrder(query: string): (order: SortOrder)
    ensures order == Desc <==> query == "desc"
  {
    if query == "" || query != "desc" then Asc else Desc
  }

  /** The comparator given to `sort.Slice`: in descending order `a` goes
      first when it was created after `b`, in ascending order when it was
      created before `b`. */
  predicate Less(order: SortOrder, a: Chirp, b: Chirp) {
    if order == Desc then a.createdAt > b.createdAt else a.createdAt < b.createdAt
  }

  /** What `sort.Slice` establishes: no chirp is Less than one placed before
      it. Chirps with equal timestamps may come in either order. */
  ghost predicate Ordered(s: seq<Chirp>, order: SortOrder) {
    forall i, j | 0 <= i < j < |s| :: !Less(order, s[j], s[i])
  }

  /** Exchanges two chirps of the slice. */
  method Swap(a: array<Chirp>, i: nat, j: nat)
    requires i < a.Length && j < a.Length
    modifies a
    ensures a[i] == old(a[j]) && a[j] == old(a[i])
    ensures forall k | 0 <= k < a.Length && k != i && k != j :: a[k] == old(a[k])
    ensures multiset(a[..]) == multiset(old(a[..]))
  {
    a[i], a[j] := a[j], a[i];
  }

  /** `sort.Slice(chirps, less)`: sorts the slice in place by creation time.
      The result is ordered and a permutation of the input; ties may end up
      in any order, as `sort.Slice` is not stable. */
  method SortChirps(chirps: array<Chirp>, order: SortOrder)
    modifies chirps
    ensures Ordered(chirps[..], order)
    ensures multiset(chirps[..]) == multiset(old(chirps[..]))
  {
    var i := 0;
    while i < chirps.Length
      invariant 0 <= i <= chirps.Length
      invariant forall k, m | 0 <= k < m < i :: !Less(order, chirps[m], chirps[k])
      invariant multiset(chirps[..]) == multiset(old(chirps[..]))
    {
      var j := i;
      while j > 0 && Less(order, chirps[j], chirps[j - 1])
        invariant 0 <= j <= i
        invariant forall k, m | 0 <= k < m <= i && k != j && m != j ::
          !Less(order, chirps[m], chirps[k])
        invariant forall m | j < m <= i :: Less(order, chirps[j], chirps[m])
        invariant multiset(chirps[..]) == multiset(old(chirps[..]))
      {
        Swap(chirps, j - 1, j);
        j := j - 1;
      }
      i := i + 1;
    }
  }

  /** The listing part of `handlerGetChirps`, given the rows the query
      fetched: normalise the `sort` value, sort the rows in place, and copy
      them into the response list. The response holds exactly the fetched
      chirps, ordered by creation time in the requested direction. */
  method ListChirps(fetched: seq<Chirp>, sortQuery: string) returns (listed: seq<Chirp>)
    ensures multiset(listed) == multiset(fetched)
    ensures Ordered(listed, NormaliseSortOrder(sortQuery))
  {
    var sortOrder := NormaliseSortOrder(sortQuery);
    var chirps := new Chirp[|fetched|](i requires 0 <= i < |fetched| => fetched[i]);
    assert chirps[..] == fetched;
    SortChirps(chirps, sortOrder);
    listed := [];
    var k := 0;
    while k < chirps.Length
      invariant 0 <= k <= chirps.Length
      invariant listed == chirps[..k]
    {
      listed := listed + [chirps[k]];
      k := k + 1;
    }
    assert listed == chirps[..];
  }

  /** `s` and `t` list chirps created at the same instants, position by
      position. */
  ghost predicate SameTimes(s: seq<Chirp>, t: seq<Chirp>) {
    |s| == |t| && forall i | 0 <= i < |s| :: s[i].createdAt == t[i].createdAt
  }

  /** Removing one chirp from an ordered list leaves it ordered. */
  lemma OrderedWithout(s: seq<Chirp>, p: nat, order: SortOrder)
    requires Ordered(s, order) && p < |s|
    ensures Ordered(s[..p] + s[p + 1..], order)
  {
    var rest := s[..p] + s[p + 1..];
    forall i, j | 0 <= i < j < |rest|
      ensures !Less(order, rest[j], rest[i])
    {
      var i', j' := if i < p then i else i + 1, if j < p then j else j + 1;
      assert rest[i] == s[i'] && rest[j] == s[j'];
    }
  }

  /** Taking the same chirp out of two lists with the same chirps leaves
      two lists with the same chirps. */
  lemma MultisetWithout(s: seq<Chirp>, t: seq<Chirp>, p: nat)
    requires multiset(s) == multiset(t)
    requires p < |s| && |t| > 0 && s[p] == t[0]
    ensures multiset(s[..p] + s[p + 1..]) == multiset(t[1..])
  {
    var rest := s[..p] + s[p + 1..];
    assert s == s[..p] + [s[p]] + s[p + 1..];
    assert multiset(s) == multiset(rest) + multiset{s[p]};
    assert t == [t[0]] + t[1..];
    assert multiset(t) == multiset{t[0]} + multiset(t[1..]);
    assert multiset(rest) == multiset(s) - multiset{s[p]};
    assert multiset(t[1..]) == multiset(t) - multiset{t[0]};
  }

  /** In two orderings of the same chirps, the chirp listed first in `t`
      sits at some `p` in `s`, and every chirp up to `p` in `s` was created
      at the same instant as it. */
  lemma TiesBefore(s: seq<Chirp>, t: seq<Chirp>, p: nat, order: SortOrder)
    requires Ordered(s, order) && Ordered(t, order)
    requires multiset(s) == multiset(t)
    requires p < |s| && |t| > 0 && s[p] == t[0]
    ensures forall i | 0 <= i <= p :: s[i].createdAt == t[0].createdAt
  {
    assert s[0] in multiset(t);
    var q :| 0 <= q < |t| && t[q] == s[0];
    assert q == 0 || !Less(order, t[q], t[0]);
    forall i | 0 <= i <= p ensures s[i].createdAt == t[0].createdAt {
      assert i == 0 || !Less(order, s[i], s[0]);
      assert i == p || !Less(order, s[p], s[i]);
    }
  }

  /** Putting back the chirp at `p` of `s` as the first of `t` keeps the
      creation times aligned, when the chirps before it tie with it. */
  lemma SameTimesWithFirst(s: seq<Chirp>, t: seq<Chirp>, p: nat)
    requires p < |s| && |t| > 0
    requires SameTimes(s[..p] + s[p + 1..], t[1..])
    requires forall i | 0 <= i <= p :: s[i].createdAt == t[0].createdAt
    ensures SameTimes(s, t)
  {
    var rest := s[..p] + s[p + 1..];
    forall i | 0 <= i < |s| ensures s[i].createdAt == t[i].createdAt {
      if 0 < i <= p {
        assert rest[i - 1] == s[i - 1] && t[1..][i - 1] == t[i];
      } else if i > p {
        assert rest[i - 1] == s[i] && t[1..][i - 1] == t[i];
      }
    }
  }

  /** Two orderings of the same chirps list the same creation times in the
      same order: only chirps created at the same instant can trade places,
      so the sort is determined up to ties. */
  lemma {:induction false} OrderedTimesDetermined(s: seq<Chirp>, t: seq<Chirp>, order: SortOrder)
    requires Ordered(s, order) && Ordered(t, order)
    requires multiset(s) == multiset(t)
    ensures SameTimes(s, t)
    decreases |t|
  {
    if |t| == 0 {
      assert |multiset(s)| == 0;
      return;
    }
    assert t[0] in multiset(s);
    var p :| 0 <= p < |s| && s[p] == t[0];
    var rest := s[..p] + s[p + 1..];
    assert t[1..] == t[..0] + t[1..];
    MultisetWithout(s, t, p);
    OrderedWithout(s, p, order);
    OrderedWithout(t, 0, order);
    OrderedTimesDetermined(rest, t[1..], order);
    TiesBefore(s, t, p, order);
    SameTimesWithFirst(s, t, p);
  }

  /** The answers of `handlerDelete`. */
  datatype DeleteResponse =
    | CouldNotFindToken       // no usable bearer header
    | CouldNotValidateToken   // the session token does not validate
    | BadChirpId              // the path value is not a UUID
    | ChirpNotFound           // the chirp lookup failed
    | NotAuthor               // the requester did not write the chirp
    | DeleteFailed            // the delete query failed
    | Deleted
  {
    /** The HTTP status each answer is sent with. */
    function Status(): int {
      match this
      case CouldNotFindToken => 401
      case CouldNotValidateToken => 401
      case BadChirpId => 500
      case ChirpNotFound => 404
      case NotAuthor => 403
      case DeleteFailed => 500
      case Deleted => 204
    }

    /** Whether the handler issued the delete query before answering. */
    predicate CallsDelete() {
      DeleteFailed? || Deleted?
    }
  }

  /** The user a request is authenticated as: its bearer token, validated by
      `validateJwt` (signature and expiry checking is not part of this model). */
  function Requester(headers: Auth.Header, validateJwt: string -> Option<Uuid>): Option<Uuid> {
    match Auth.GetBearerToken(headers)
    case Err(_) => None
    case Ok(token) => validateJwt(token)
  }

  /** `handlerDelete`, with the outcomes of the calls it makes as parameters:
      `validateJwt` for `auth.ValidateJWT`, `chirpId` for the parsed path
      value, `chirps` for the rows `GetChirp` can find, and `deleteOk` for the
      result of the delete query. The delete query is issued exactly when the
      requester is authenticated, the chirp exists and the requester wrote
      it; a chirp by someone else is refused with 403 and left alone. */
  function HandleDelete(headers: Auth.Header, validateJwt: string -> Option<Uuid>,
                        chirpId: Option<Uuid>, chirps: map<Uuid, Chirp>, deleteOk: bool)
    : (r: DeleteResponse)
    ensures r.CallsDelete() <==>
      Requester(headers, validateJwt).Some? && chirpId.Some? && chirpId.value in chirps &&
      chirps[chirpId.value].userId == Requester(headers, validateJwt).value
    ensures r == NotAuthor <==>
      Requester(headers, validateJwt).Some? && chirpId.Some? && chirpId.value in chirps &&
      chirps[chirpId.value].userId != Requester(headers, validateJwt).value
    ensures r == Deleted <==> r.CallsDelete() && deleteOk
    ensures Requester(headers, validateJwt).None? ==> r.Status() == 401
  {
    match Auth.GetBearerToken(headers)
    case Err(_) => CouldNotFindToken
    case Ok(token) =>
      match validateJwt(token)
      case None => CouldNotValidateToken
      case Some(userId) =>
        match chirpId
        case None => BadChirpId
        case Some(id) =>
          if id !in chirps then ChirpNotFound
          else if chirps[id].userId != userId then NotAuthor
          else if !deleteOk then DeleteFailed
          else Deleted
  }
}
