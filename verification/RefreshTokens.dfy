/**
  Refresh tokens: issue, rotate and revoke over the token table.  Each call is one step; the
  clock readings and the random token are inputs.
*/
module RefreshTokens {
  import opened Collections

  datatype Row = Row(accountId: string, tokenHash: string, expiresAt: int, revokedAt: Option<int>)

  /**
    The table, with each row's lineage: `root[i]` is the row of the login that row i descends
    from.  The lineage is bookkeeping of the model; the program stores none.
  */
  datatype Store = Store(rows: seq<Row>, root: seq<nat>)

  datatype Event =
    | Login(accountId: string, hash: string, expiresAt: int)
    | Refresh(hash: string, now: int, accountExists: bool, revokedAt: int, newHash: string, newExpiresAt: int)
    | Revoke(hash: string, at: int)

  datatype Outcome = Done | Issued | Invalid | NoAccount | HashTaken

  /** The row with a given hash; hashes are unique in the table. */
  function Find(rows: seq<Row>, hash: string): (i: Option<nat>)
    ensures i.Some? ==> i.value < |rows| && rows[i.value].tokenHash == hash
  {
    if rows == [] then None
    else if rows[|rows| - 1].tokenHash == hash then Some(|rows| - 1)
    else Find(rows[..|rows| - 1], hash)
  }

  /** Nothing is found exactly when no row has the hash. */
  lemma {:induction false} FindIsRight(rows: seq<Row>, hash: string)
    ensures Find(rows, hash).None? <==> forall i :: 0 <= i < |rows| ==> rows[i].tokenHash != hash
  {
    if rows != [] && rows[|rows| - 1].tokenHash != hash {
      FindIsRight(rows[..|rows| - 1], hash);
    }
  }

  /** `create`: refused by the unique index when the hash is already there. */
  function Create(s: Store, row: Row, root: nat): (Store, bool) {
    if Find(s.rows, row.tokenHash).Some? then (s, false)
    else (Store(s.rows + [row], s.root + [root]), true)
  }

  function RevokeAt(s: Store, i: nat, at: int): Store
    requires i < |s.rows|
  {
    s.(rows := s.rows[i := s.rows[i].(revokedAt := Some(at))])
  }

  function Step(s: Store, e: Event): (r: (Store, Outcome))
    requires |s.root| == |s.rows|
    ensures |r.0.root| == |r.0.rows|
  {
    match e
    case Login(accountId, hash, expiresAt) =>
      var (t, ok) := Create(s, Row(accountId, hash, expiresAt, None), |s.rows|);
      (t, if ok then Issued else HashTaken)
    case Refresh(hash, now, accountExists, revokedAt, newHash, newExpiresAt) =>
      (match Find(s.rows, hash)
       case None => (s, Invalid)
       case Some(i) =>
         var stored := s.rows[i];
         if stored.revokedAt.Some? || stored.expiresAt < now then (s, Invalid)
         else if !accountExists then (s, NoAccount)
         else
           var issued := Row(stored.accountId, newHash, newExpiresAt, None);
           var (t, ok) := Create(RevokeAt(s, i, revokedAt), issued, s.root[i]);
           (t, if ok then Issued else HashTaken))
    case Revoke(hash, at) =>
      match Find(s.rows, hash)
      case None => (s, Done)
      case Some(i) => (if s.rows[i].revokedAt.Some? then s else RevokeAt(s, i, at), Done)
  }

  /**
    What every step keeps: hashes are unique, and in each login's lineage every row but the
    newest is revoked, so at most one token of a login is live; a lineage stays with one account.
  */
  ghost predicate Sound(s: Store) {
    && |s.root| == |s.rows|
    && (forall i, j :: 0 <= i < j < |s.rows| ==> s.rows[i].tokenHash != s.rows[j].tokenHash)
    && (forall i :: 0 <= i < |s.root| ==> s.root[i] <= i && s.rows[i].accountId == s.rows[s.root[i]].accountId)
    && (forall i, j :: 0 <= i < j < |s.rows| && s.root[i] == s.root[j] ==> s.rows[i].revokedAt.Some?)
  }

  /** Rows are only added, and an existing row changes at most from unrevoked to revoked. */
  ghost predicate Extends(s: Store, t: Store) {
    && |s.rows| <= |t.rows| && |t.root| == |t.rows| && |s.root| == |s.rows| && s.root <= t.root
    && forall i :: 0 <= i < |s.rows| ==>
         || t.rows[i] == s.rows[i]
         || (&& s.rows[i].revokedAt.None? && t.rows[i].revokedAt.Some?
             && t.rows[i] == s.rows[i].(revokedAt := t.rows[i].revokedAt))
  }

  ghost predicate Live(s: Store, root: nat) {
    exists i :: 0 <= i < |s.rows| && i < |s.root| && s.root[i] == root && s.rows[i].revokedAt.None?
  }

  function Unrevoked(rows: seq<Row>): nat {
    if rows == [] then 0
    else Unrevoked(rows[..|rows| - 1]) + if rows[|rows| - 1].revokedAt.None? then 1 else 0
  }

  lemma {:induction false} RevokingOne(rows: seq<Row>, i: nat, at: int)
    requires i < |rows| && rows[i].revokedAt.None?
    ensures Unrevoked(rows[i := rows[i].(revokedAt := Some(at))]) == Unrevoked(rows) - 1
  {
    var after := rows[i := rows[i].(revokedAt := Some(at))];
    var n := |rows| - 1;
    if i < n {
      assert after[..n] == rows[..n][i := rows[..n][i].(revokedAt := Some(at))];
      RevokingOne(rows[..n], i, at);
    } else {
      assert after[..n] == rows[..n];
    }
  }

  lemma AddingOne(rows: seq<Row>, row: Row)
    ensures Unrevoked(rows + [row]) == Unrevoked(rows) + if row.revokedAt.None? then 1 else 0
  {
    assert (rows + [row])[..|rows|] == rows;
  }

  lemma RevokeAtIsSound(s: Store, i: nat, at: int)
    requires Sound(s) && i < |s.rows| && s.rows[i].revokedAt.None?
    ensures Sound(RevokeAt(s, i, at)) && Extends(s, RevokeAt(s, i, at))
  {}

  /** A new row is sound as a login of its own, or below a lineage whose rows are all revoked. */
  lemma CreateIsSound(s: Store, row: Row, root: nat)
    requires Sound(s) && root <= |s.rows|
    requires root < |s.rows| ==> s.rows[root].accountId == row.accountId
    requires forall i :: 0 <= i < |s.rows| && s.root[i] == root ==> s.rows[i].revokedAt.Some?
    ensures Sound(Create(s, row, root).0) && Extends(s, Create(s, row, root).0)
  {
    FindIsRight(s.rows, row.tokenHash);
  }

  lemma ExtendsOnce(s: Store, t: Store, u: Store)
    requires Extends(s, t) && Extends(t, u)
    ensures Extends(s, u)
  {}

  /** Every step keeps the invariant and only extends the table. */
  lemma StepIsSound(s: Store, e: Event)
    requires Sound(s)
    ensures Sound(Step(s, e).0) && Extends(s, Step(s, e).0)
  {
    hide Create, Extends;
    NothingChanges(s);
    match e
    case Login(accountId, hash, expiresAt) =>
      CreateIsSound(s, Row(accountId, hash, expiresAt, None), |s.rows|);
    case Refresh(hash, now, accountExists, revokedAt, newHash, newExpiresAt) =>
      var found := Find(s.rows, hash);
      if found.Some? && s.rows[found.value].revokedAt.None? {
        var i := found.value;
        var t, row := RevokeAt(s, i, revokedAt), Row(s.rows[i].accountId, newHash, newExpiresAt, None);
        RevokeAtIsSound(s, i, revokedAt);
        CreateIsSound(t, row, s.root[i]);
        ExtendsOnce(s, t, Create(t, row, s.root[i]).0);
      }
    case Revoke(hash, at) =>
      var found := Find(s.rows, hash);
      if found.Some? && s.rows[found.value].revokedAt.None? {
        RevokeAtIsSound(s, found.value, at);
      }
  }

  lemma NothingChanges(s: Store)
    requires Sound(s)
    ensures Extends(s, s)
  {}

  /** The row's token can be redeemed: not revoked, and not past its expiry. */
  predicate Redeemable(row: Row, hash: string, now: int) {
    row.tokenHash == hash && row.revokedAt.None? && now <= row.expiresAt
  }

  ghost predicate CanRedeem(rows: seq<Row>, hash: string, now: int) {
    exists i :: 0 <= i < |rows| && Redeemable(rows[i], hash, now)
  }

  /** The unique index already holds the hash. */
  ghost predicate Taken(rows: seq<Row>, hash: string) {
    exists i :: 0 <= i < |rows| && rows[i].tokenHash == hash
  }

  /** The row of a redeemable token is the one that is found. */
  lemma FindRedeemable(s: Store, hash: string, now: int)
    requires Sound(s)
    ensures CanRedeem(s.rows, hash, now)
       <==> Find(s.rows, hash).Some? && Redeemable(s.rows[Find(s.rows, hash).value], hash, now)
  {
    FindIsRight(s.rows, hash);
  }

  /**
    A refresh has four outcomes, each told from the table and the account before the call.
    One that issues a token trades one live token for another and so keeps their number.  A
    failed one changes nothing, except when the new random token's hash is already stored:
    the old token is then revoked and no new one exists.
  */
  lemma RefreshTradesOneForOne(s: Store, e: Event)
    requires Sound(s) && e.Refresh?
    ensures var (t, outcome) := Step(s, e);
      var allowed := CanRedeem(s.rows, e.hash, e.now) && e.accountExists;
      && (outcome == Invalid <==> !CanRedeem(s.rows, e.hash, e.now))
      && (outcome == NoAccount <==> CanRedeem(s.rows, e.hash, e.now) && !e.accountExists)
      && (outcome == HashTaken <==> allowed && Taken(s.rows, e.newHash))
      && (outcome == Issued <==> allowed && !Taken(s.rows, e.newHash))
      && (t == s <==> !allowed)
      && Unrevoked(t.rows) == Unrevoked(s.rows) - if allowed && Taken(s.rows, e.newHash) then 1 else 0
  {
    FindRedeemable(s, e.hash, e.now);
    if Find(s.rows, e.hash).Some? && Redeemable(s.rows[Find(s.rows, e.hash).value], e.hash, e.now) {
      var i := Find(s.rows, e.hash).value;
      RevokingOne(s.rows, i, e.revokedAt);
      RevokedIsTakenToo(s, i, e.revokedAt, e.newHash);
      AddingOne(RevokeAt(s, i, e.revokedAt).rows, Row(s.rows[i].accountId, e.newHash, e.newExpiresAt, None));
    }
  }

  /** A revoked row still holds its hash in the index. */
  lemma RevokedIsTakenToo(s: Store, i: nat, at: int, hash: string)
    requires i < |s.rows|
    ensures Find(RevokeAt(s, i, at).rows, hash).Some? <==> Taken(s.rows, hash)
  {
    FindIsRight(RevokeAt(s, i, at).rows, hash);
    assert forall j :: 0 <= j < |s.rows| ==> RevokeAt(s, i, at).rows[j].tokenHash == s.rows[j].tokenHash;
  }

  /** A refresh that fails and still logs the account out: its new token has the hash of the one it redeems. */
  lemma FailedRefreshMayRevoke()
    ensures var s := Store([Row("account", "hash", 10, None)], [0]);
      var (t, outcome) := Step(s, Refresh("hash", 5, true, 6, "hash", 20));
      Sound(s) && outcome == HashTaken && t != s && Unrevoked(s.rows) == 1 && Unrevoked(t.rows) == 0
  {}

  /** The table after a refresh that issues: one row revoked, one new row of the same account and login. */
  ghost predicate Rotated(s: Store, e: Event, t: Store, i: nat)
    requires e.Refresh? && |s.root| == |s.rows|
  {
    && i < |s.rows| && s.rows[i].tokenHash == e.hash
    && t.rows == s.rows[i := s.rows[i].(revokedAt := Some(e.revokedAt))]
                 + [Row(s.rows[i].accountId, e.newHash, e.newExpiresAt, None)]
    && t.root == s.root + [s.root[i]]
  }

  lemma IssuedIsRotated(s: Store, e: Event)
    requires Sound(s) && e.Refresh? && Step(s, e).1 == Issued
    ensures exists i: nat :: Rotated(s, e, Step(s, e).0, i)
    ensures !Taken(s.rows, e.newHash) && Taken(s.rows, e.hash)
  {
    hide Find;
    FindRedeemable(s, e.hash, e.now);
    var i := Find(s.rows, e.hash).value;
    RevokedIsTakenToo(s, i, e.revokedAt, e.newHash);
    assert Rotated(s, e, Step(s, e).0, i);
  }

  /**
    What a refresh issues: the new token can be redeemed until its own expiry, the old one
    no more, and every other token as before.
  */
  lemma IssuedTokenWorks(s: Store, e: Event)
    requires Sound(s) && e.Refresh? && Step(s, e).1 == Issued
    ensures var t := Step(s, e).0;
      && (exists i: nat :: Rotated(s, e, t, i))
      && forall h, u :: CanRedeem(t.rows, h, u)
           <==> if h == e.newHash then u <= e.newExpiresAt else h != e.hash && CanRedeem(s.rows, h, u)
  {
    hide Step;
    IssuedIsRotated(s, e);
    var t := Step(s, e).0;
    var i: nat :| Rotated(s, e, t, i);
    forall h, u ensures CanRedeem(t.rows, h, u)
      <==> if h == e.newHash then u <= e.newExpiresAt else h != e.hash && CanRedeem(s.rows, h, u)
    {
      RotatedTokens(s, e, t, i, h, u);
    }
  }

  lemma RotatedTokens(s: Store, e: Event, t: Store, i: nat, h: string, u: int)
    requires Sound(s) && e.Refresh? && Rotated(s, e, t, i) && !Taken(s.rows, e.newHash)
    ensures CanRedeem(t.rows, h, u)
       <==> if h == e.newHash then u <= e.newExpiresAt else h != e.hash && CanRedeem(s.rows, h, u)
  {
    var n := |s.rows|;
    assert t.rows[n].tokenHash == e.newHash;
    assert forall j :: 0 <= j < n && j != i ==> t.rows[j] == s.rows[j];
    if h == e.newHash {
      assert Redeemable(t.rows[n], h, u) <==> u <= e.newExpiresAt;
    } else if CanRedeem(s.rows, h, u) && h != e.hash {
      var j :| 0 <= j < n && Redeemable(s.rows[j], h, u);
      assert Redeemable(t.rows[j], h, u);
    }
  }

  /** A login opens a lineage of its own whose token works until it expires, unless its hash is taken. */
  lemma LoginTells(s: Store, e: Event)
    requires Sound(s) && e.Login?
    ensures var (t, outcome) := Step(s, e);
      if Taken(s.rows, e.hash) then outcome == HashTaken && t == s
      else
        && outcome == Issued && t.rows == s.rows + [Row(e.accountId, e.hash, e.expiresAt, None)]
        && t.root == s.root + [|s.rows|]
        && forall h, u :: CanRedeem(t.rows, h, u) <==> if h == e.hash then u <= e.expiresAt else CanRedeem(s.rows, h, u)
  {
    hide Find;
    FindIsRight(s.rows, e.hash);
    if !Taken(s.rows, e.hash) {
      var row := Row(e.accountId, e.hash, e.expiresAt, None);
      forall h, u
        ensures CanRedeem(s.rows + [row], h, u)
           <==> if h == e.hash then u <= e.expiresAt else CanRedeem(s.rows, h, u)
      {
        OneMoreToken(s.rows, row, h, u);
      }
    }
  }

  lemma OneMoreToken(rows: seq<Row>, row: Row, h: string, u: int)
    requires !Taken(rows, row.tokenHash) && row.revokedAt == None
    ensures CanRedeem(rows + [row], h, u)
       <==> if h == row.tokenHash then u <= row.expiresAt else CanRedeem(rows, h, u)
  {
    var all := rows + [row];
    assert all[|rows|] == row && forall j :: 0 <= j < |rows| ==> all[j] == rows[j];
    if h == row.tokenHash {
      assert Redeemable(all[|rows|], h, u) <==> u <= row.expiresAt;
    } else if CanRedeem(rows, h, u) {
      var j :| 0 <= j < |rows| && Redeemable(rows[j], h, u);
      assert Redeemable(all[j], h, u);
    }
  }

  /** A revocation stamps the unrevoked row with the hash, if there is one, and touches nothing else. */
  lemma RevokeTells(s: Store, e: Event)
    requires Sound(s) && e.Revoke?
    ensures var (t, outcome) := Step(s, e);
      && outcome == Done && |t.rows| == |s.rows| && t.root == s.root
      && forall i :: 0 <= i < |s.rows| ==>
           t.rows[i] == if s.rows[i].tokenHash == e.hash && s.rows[i].revokedAt.None?
                        then s.rows[i].(revokedAt := Some(e.at)) else s.rows[i]
  {
    hide Find;
    FindIsRight(s.rows, e.hash);
  }

  // ----- Runs

  function After(s: Store, run: seq<Event>): (t: Store)
    requires |s.root| == |s.rows|
    ensures |t.root| == |t.rows|
  {
    if run == [] then s
    else
      var before := After(s, run[..|run| - 1]);
      Step(before, run[|run| - 1]).0
  }

  /** How often the token with this hash was redeemed for a new one. */
  function Redeemed(s: Store, run: seq<Event>, hash: string): nat
    requires |s.root| == |s.rows|
  {
    if run == [] then 0
    else
      var e := run[|run| - 1];
      Redeemed(s, run[..|run| - 1], hash)
      + if e.Refresh? && e.hash == hash && Step(After(s, run[..|run| - 1]), e).1 == Issued then 1 else 0
  }

  lemma {:induction false} RunIsSound(s: Store, run: seq<Event>)
    requires Sound(s)
    ensures Sound(After(s, run)) && Extends(s, After(s, run))
  {
    hide Step, Sound;
    assert |s.root| == |s.rows| by { SizesAgree(s); }
    if run != [] {
      var before := After(s, run[..|run| - 1]);
      RunIsSound(s, run[..|run| - 1]);
      StepIsSound(before, run[|run| - 1]);
    }
  }

  lemma SizesAgree(s: Store)
    requires Sound(s)
    ensures |s.root| == |s.rows|
  {}

  /** At every point of every run each login has at most one live token, the newest of its lineage. */
  lemma OneLiveTokenPerLogin(run: seq<Event>, i: nat, j: nat)
    requires var t := After(Store([], []), run);
      i < |t.rows| && j < |t.rows| && t.root[i] == t.root[j] && t.rows[i].revokedAt.None? && t.rows[j].revokedAt.None?
    ensures i == j
  {
    RunIsSound(Store([], []), run);
  }

  ghost predicate Spent(s: Store, hash: string) {
    exists i :: 0 <= i < |s.rows| && s.rows[i].tokenHash == hash && s.rows[i].revokedAt.Some?
  }

  lemma RedeemedIsRevoked(s: Store, e: Event)
    requires |s.root| == |s.rows| && e.Refresh? && Step(s, e).1 == Issued
    ensures Find(s.rows, e.hash).Some?
    ensures var i := Find(s.rows, e.hash).value;
      var t := Step(s, e).0;
      && s.rows[i].revokedAt.None?
      && i < |t.rows| && t.rows[i].tokenHash == e.hash && t.rows[i].revokedAt.Some?
  {
    hide Find;
  }

  lemma IssuedSpends(s: Store, e: Event)
    requires Sound(s) && e.Refresh? && Step(s, e).1 == Issued
    ensures !Spent(s, e.hash) && Spent(Step(s, e).0, e.hash)
  {
    hide Step, Find;
    SizesAgree(s);
    RedeemedIsRevoked(s, e);
  }

  lemma StaysSpent(s: Store, t: Store, hash: string)
    requires Extends(s, t) && Spent(s, hash)
    ensures Spent(t, hash)
  {
    var i :| 0 <= i < |s.rows| && s.rows[i].tokenHash == hash && s.rows[i].revokedAt.Some?;
    assert t.rows[i].tokenHash == hash && t.rows[i].revokedAt.Some?;
  }

  /** Whatever happens in between, a token is redeemed at most once, and never once it is revoked. */
  lemma {:induction false} RedeemedAtMostOnce(s: Store, run: seq<Event>, hash: string)
    requires Sound(s)
    ensures |s.root| == |s.rows| && Redeemed(s, run, hash) <= if Spent(s, hash) then 0 else 1
    ensures Redeemed(s, run, hash) == 1 ==> Spent(After(s, run), hash)
  {
    hide Step, Sound, Spent, Extends;
    SizesAgree(s);
    if run != [] {
      var init, e := run[..|run| - 1], run[|run| - 1];
      RedeemedAtMostOnce(s, init, hash);
      RunIsSound(s, init);
      var before := After(s, init);
      StepIsSound(before, e);
      if Spent(s, hash) { StaysSpent(s, before, hash); }
      if Spent(before, hash) { StaysSpent(before, Step(before, e).0, hash); }
      if e.Refresh? && e.hash == hash && Step(before, e).1 == Issued {
        IssuedSpends(before, e);
      }
    }
  }

  lemma StaysDead(s: Store, t: Store, root: nat)
    requires Sound(s) && Extends(s, t) && !Live(s, root)
    requires forall j :: |s.rows| <= j < |t.rows| ==> t.root[j] != root
    ensures !Live(t, root)
  {
    assert forall i :: 0 <= i < |s.root| ==> s.root[i] == t.root[i];
  }

  lemma StepKeepsDead(s: Store, e: Event, root: nat)
    requires Sound(s) && root < |s.rows| && !Live(s, root)
    ensures !Live(Step(s, e).0, root)
  {
    StepIsSound(s, e);
    var t := Step(s, e).0;
    forall j | |s.rows| <= j < |t.rows| ensures t.root[j] != root {
      if e.Refresh? {
        var i := Find(s.rows, e.hash).value;
        assert t.root[j] == s.root[i] && s.rows[i].revokedAt.None?;
      }
    }
    hide Step, Sound;
    StaysDead(s, t, root);
  }

  /** Once none of a login's tokens is live, none ever is again: a logout is final. */
  lemma {:induction false} DeadLoginsStayDead(s: Store, run: seq<Event>, root: nat)
    requires Sound(s) && root < |s.rows| && !Live(s, root)
    ensures |s.root| == |s.rows| && !Live(After(s, run), root)
  {
    hide Step, Sound, Live;
    SizesAgree(s);
    if run != [] {
      DeadLoginsStayDead(s, run[..|run| - 1], root);
      RunIsSound(s, run[..|run| - 1]);
      StepKeepsDead(After(s, run[..|run| - 1]), run[|run| - 1], root);
    }
  }

  /** Revoking a login's live token ends the login. */
  lemma RevokeEndsTheLogin(s: Store, i: nat, at: int)
    requires Sound(s) && i < |s.rows| && s.rows[i].revokedAt.None?
    ensures !Live(Step(s, Revoke(s.rows[i].tokenHash, at)).0, s.root[i])
  {
    hide Find, Live;
    FindsTheRow(s, i);
    NoneLiveBut(s, i, at);
  }

  lemma FindsTheRow(s: Store, i: nat)
    requires Sound(s) && i < |s.rows|
    ensures Find(s.rows, s.rows[i].tokenHash) == Some(i)
  {
    hide Find;
    FindIsRight(s.rows, s.rows[i].tokenHash);
  }

  lemma NoneLiveBut(s: Store, i: nat, at: int)
    requires Sound(s) && i < |s.rows| && s.rows[i].revokedAt.None?
    ensures !Live(RevokeAt(s, i, at), s.root[i])
  {
    forall j | 0 <= j < |s.rows| && s.root[j] == s.root[i] ensures j == i || s.rows[j].revokedAt.Some? {
      assert j < i || j == i || i < j;
    }
  }

  // ----- The service

  class TokenService {
    const hash: string -> string
    const refreshExpiresInMs: int
    var rows: seq<Row>
    ghost var root: seq<nat>

    constructor (hash: string -> string, refreshExpiresInMs: int)
      ensures this.hash == hash && this.refreshExpiresInMs == refreshExpiresInMs && rows == [] && root == []
    {
      this.hash, this.refreshExpiresInMs, rows, root := hash, refreshExpiresInMs, [], [];
    }

    ghost function Table(): Store
      reads this
    {
      Store(rows, root)
    }

    /** `random` is the fresh raw token; its hash is all that is stored. */
    method IssueTokenPair(accountId: string, random: string, now: int, ghost parent: nat) returns (outcome: Outcome)
      modifies this
      ensures var (t, ok) := Create(old(Table()), Row(accountId, hash(random), now + refreshExpiresInMs, None), parent);
        Table() == t && outcome == if ok then Issued else HashTaken
    {
      var tokenHash := hash(random);
      var expiresAt := now + refreshExpiresInMs;
      if Find(rows, tokenHash).Some? {
        return HashTaken;
      }
      rows := rows + [Row(accountId, tokenHash, expiresAt, None)];
      root := root + [parent];
      outcome := Issued;
    }

    method LogIn(accountId: string, random: string, now: int) returns (outcome: Outcome)
      requires Sound(Table())
      modifies this
      ensures (Table(), outcome) == Step(old(Table()), Login(accountId, hash(random), now + refreshExpiresInMs))
      ensures Sound(Table())
    {
      StepIsSound(Table(), Login(accountId, hash(random), now + refreshExpiresInMs));
      outcome := IssueTokenPair(accountId, random, now, |rows|);
    }

    method RefreshToken(raw: string, accounts: set<string>, checkedAt: int, revokedAt: int, random: string,
                        issuedAt: int)
      returns (outcome: Outcome)
      requires Sound(Table())
      modifies this
      ensures var stored := Find(old(rows), hash(raw));
        var accountExists := stored.Some? && old(rows)[stored.value].accountId in accounts;
        (Table(), outcome)
        == Step(old(Table()), Refresh(hash(raw), checkedAt, accountExists, revokedAt,
                                      hash(random), issuedAt + refreshExpiresInMs))
      ensures Sound(Table()) && Extends(old(Table()), Table())
    {
      hide Extends, Sound, Create;
      SizesAgree(Table());
      var tokenHash := hash(raw);
      var found := Find(rows, tokenHash);
      StepIsSound(Table(), Refresh(tokenHash, checkedAt, found.Some? && rows[found.value].accountId in accounts,
                                   revokedAt, hash(random), issuedAt + refreshExpiresInMs));
      if found.None? {
        return Invalid;
      }
      var stored := rows[found.value];
      if stored.revokedAt.Some? || stored.expiresAt < checkedAt {
        return Invalid;
      }
      if stored.accountId !in accounts {
        return NoAccount;
      }
      rows := rows[found.value := stored.(revokedAt := Some(revokedAt))];
      outcome := IssueTokenPair(stored.accountId, random, issuedAt, root[found.value]);
    }

    method RevokeRefreshToken(raw: string, at: int)
      requires Sound(Table())
      modifies this
      ensures Table() == Step(old(Table()), Revoke(hash(raw), at)).0
      ensures Sound(Table())
    {
      hide Sound;
      SizesAgree(Table());
      var tokenHash := hash(raw);
      StepIsSound(Table(), Revoke(tokenHash, at));
      var found := Find(rows, tokenHash);
      if found.Some? && rows[found.value].revokedAt.None? {
        rows := rows[found.value := rows[found.value].(revokedAt := Some(at))];
      }
    }
  }
}
