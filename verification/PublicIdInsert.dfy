/**
  The create / createMany middleware: missing public ids are filled in, and an insert that
  collides on a public id is retried with fresh ids, three attempts in all.
*/
module PublicIdInsert {
  import opened Arithmetic
  import opened Collections
  import P = PublicId

  // ----- Errors

  datatype Target = NoTarget | Columns(columns: seq<Option<string>>) | Constraint(name: string)

  datatype DbError = DbError(code: string, target: Target)

  function Lower(s: string): (r: string)
    ensures |r| == |s|
  {
    if s == "" then ""
    else [if 'A' <= s[0] <= 'Z' then (s[0] as int + 32) as char else s[0]] + Lower(s[1..])
  }

  predicate Includes(s: string, part: string) {
    exists i :: 0 <= i <= |s| && StandsAt(s, part, i)
  }

  /** `part` is the stretch of `s` from `i` on. */
  predicate StandsAt(s: string, part: string, i: nat) { i + |part| <= |s| && s[i..i + |part|] == part }

  predicate IsPublicIdUniqueViolation(e: DbError) {
    e.code == "P2002" &&
    match e.target
    case NoTarget => false
    case Columns(columns) =>
      exists i :: 0 <= i < |columns| && columns[i].Some? && Lower(columns[i].value) == "publicid"
    case Constraint(name) => Includes(Lower(name), "publicid")
  }

  const COLLISION := DbError("P2002", Columns([Some("publicId")]))

  // ----- Which errors are about the public id

  /** The string is the column's name, letter by letter, up to case. */
  predicate NamesColumn(s: string) {
    |s| == 8 && forall i :: 0 <= i < 8 ==> s[i] == "publicid"[i] || s[i] == "PUBLICID"[i]
  }

  predicate NamesColumnAt(s: string, i: nat) { i + 8 <= |s| && NamesColumn(s[i..i + 8]) }

  /** A unique violation on a column, or by a constraint, that names the public id. */
  ghost predicate AboutPublicId(e: DbError) {
    && e.code == "P2002"
    && match e.target
       case NoTarget => false
       case Columns(columns) => exists i :: 0 <= i < |columns| && columns[i].Some? && NamesColumn(columns[i].value)
       case Constraint(name) => exists i: nat :: NamesColumnAt(name, i)
  }

  lemma {:induction false} LowerAt(s: string, i: nat)
    requires i < |s|
    ensures Lower(s)[i] == if 'A' <= s[i] <= 'Z' then (s[i] as int + 32) as char else s[i]
  {
    if i > 0 {
      LowerAt(s[1..], i - 1);
    }
  }

  lemma LowerLetter(c: char, i: nat)
    requires i < 8
    ensures (if 'A' <= c <= 'Z' then (c as int + 32) as char else c) == "publicid"[i]
       <==> c == "publicid"[i] || c == "PUBLICID"[i]
  {}

  lemma LowerIsColumn(s: string)
    ensures Lower(s) == "publicid" <==> NamesColumn(s)
  {
    hide Lower;
    forall i | 0 <= i < |s| && i < 8
      ensures Lower(s)[i] == "publicid"[i] <==> s[i] == "publicid"[i] || s[i] == "PUBLICID"[i]
    {
      LowerAt(s, i);
      LowerLetter(s[i], i);
    }
    if NamesColumn(s) {
      assert |"publicid"| == 8;
      assert forall i :: 0 <= i < 8 ==> Lower(s)[i] == "publicid"[i];
    }
  }

  lemma {:induction false} LowerOfSlice(s: string, i: nat, j: nat)
    requires i <= j <= |s|
    ensures Lower(s)[i..j] == Lower(s[i..j])
  {
    hide Lower;
    forall k | 0 <= k < j - i ensures Lower(s)[i..j][k] == Lower(s[i..j])[k] {
      LowerAt(s, i + k);
      LowerAt(s[i..j], k);
    }
  }

  lemma StandsInLower(s: string, i: nat)
    ensures StandsAt(Lower(s), "publicid", i) <==> NamesColumnAt(s, i)
  {
    hide Lower, NamesColumn;
    assert |"publicid"| == 8;
    if i + 8 <= |s| {
      LowerOfSlice(s, i, i + 8);
      LowerIsColumn(s[i..i + 8]);
    }
  }

  /** The error test accepts exactly the violations that name the public id. */
  lemma ViolationIsAboutPublicId(e: DbError)
    ensures IsPublicIdUniqueViolation(e) <==> AboutPublicId(e)
  {
    hide Lower, NamesColumn, NamesColumnAt, StandsAt;
    match e.target
    case NoTarget =>
    case Columns(columns) =>
      forall s ensures Lower(s) == "publicid" <==> NamesColumn(s) { LowerIsColumn(s); }
    case Constraint(name) =>
      forall i: nat ensures StandsAt(Lower(name), "publicid", i) <==> NamesColumnAt(name, i) {
        StandsInLower(name, i);
      }
      forall i: nat | StandsAt(Lower(name), "publicid", i) ensures i <= |name| { StandsWithin(Lower(name), i); }
  }

  lemma StandsWithin(s: string, i: nat)
    requires StandsAt(s, "publicid", i)
    ensures i <= |s|
  {}

  lemma CollisionIsRecognised()
    ensures IsPublicIdUniqueViolation(COLLISION)
  {
    hide IsPublicIdUniqueViolation;
    ViolationIsAboutPublicId(COLLISION);
    assert NamesColumn("publicId");
    assert COLLISION.target.columns[0] == Some("publicId");
  }

  /** A violation reported by a constraint name is recognised when the name holds the column: `Skill_publicId_key`. */
  lemma ConstraintIsRecognised(before: string, after: string)
    ensures IsPublicIdUniqueViolation(DbError("P2002", Constraint(before + "publicId" + after)))
  {
    hide IsPublicIdUniqueViolation;
    var name := before + "publicId" + after;
    ViolationIsAboutPublicId(DbError("P2002", Constraint(name)));
    assert name[|before|..|before| + 8] == "publicId" && NamesColumn("publicId");
    assert NamesColumnAt(name, |before|);
  }

  // ----- The table

  datatype Data = Data(fields: map<string, string>)

  datatype Record = Record(publicId: string, data: Data)

  ghost predicate UniqueIds(table: seq<Record>) {
    forall i, j :: 0 <= i < j < |table| ==> table[i].publicId != table[j].publicId
  }

  function Batch(ids: seq<string>, data: seq<Data>): (r: seq<Record>)
    requires |ids| == |data|
    ensures |r| == |ids| && forall i :: 0 <= i < |r| ==> r[i] == Record(ids[i], data[i])
  {
    seq(|ids|, i requires 0 <= i < |ids| => Record(ids[i], data[i]))
  }

  predicate Collides(table: seq<Record>, ids: seq<string>) {
    || (exists i, j :: 0 <= i < |ids| && 0 <= j < |table| && ids[i] == table[j].publicId)
    || (exists i, j :: 0 <= i < j < |ids| && ids[i] == ids[j])
  }

  /** One insert of a whole batch: any other error comes first, then the uniqueness of public ids. */
  function Insert(table: seq<Record>, ids: seq<string>, data: seq<Data>,
                  fault: Option<DbError>): Result<seq<Record>, DbError>
    requires |ids| == |data|
  {
    if fault.Some? then Err(fault.value)
    else if Collides(table, ids) then Err(COLLISION)
    else Ok(table + Batch(ids, data))
  }

  // ----- The retry loop as a function

  const MAX_RETRIES: nat := 3

  /** `n` identifiers drawn from number `cursor` on. */
  function Drawn(gen: nat -> string, cursor: nat, n: nat): (r: seq<string>)
    ensures |r| == n && forall i :: 0 <= i < n ==> r[i] == gen(cursor + i)
  {
    seq(n, i requires 0 <= i < n => gen(cursor + i))
  }

  /** How a call ends: its result, the ids left in the caller's rows, the draws used and the attempts made. */
  datatype End = End(result: Result<seq<Record>, DbError>, ids: seq<string>, cursor: nat, attempts: nat)

  function Run(table: seq<Record>, data: seq<Data>, ids: seq<string>, gen: nat -> string, cursor: nat,
               faults: nat -> Option<DbError>, attempt: nat): End
    requires |ids| == |data| && attempt < MAX_RETRIES
    decreases MAX_RETRIES - attempt
  {
    match Insert(table, ids, data, faults(attempt))
    case Ok(t) => End(Ok(t), ids, cursor, attempt + 1)
    case Err(e) =>
      if !IsPublicIdUniqueViolation(e) then End(Err(e), ids, cursor, attempt + 1)
      else if attempt + 1 == MAX_RETRIES then End(Err(e), Drawn(gen, cursor, |ids|), cursor + |ids|, attempt + 1)
      else Run(table, data, Drawn(gen, cursor, |ids|), gen, cursor + |ids|, faults, attempt + 1)
  }

  lemma RunUnfolds(table: seq<Record>, data: seq<Data>, ids: seq<string>, gen: nat -> string, cursor: nat,
                   faults: nat -> Option<DbError>, attempt: nat)
    requires |ids| == |data| && attempt < MAX_RETRIES
    ensures var end, next := Run(table, data, ids, gen, cursor, faults, attempt), Drawn(gen, cursor, |ids|);
      match Insert(table, ids, data, faults(attempt))
      case Ok(t) => end == End(Ok(t), ids, cursor, attempt + 1)
      case Err(e) =>
        if !IsPublicIdUniqueViolation(e) then end == End(Err(e), ids, cursor, attempt + 1)
        else if attempt + 1 == MAX_RETRIES then end == End(Err(e), next, cursor + |ids|, attempt + 1)
        else end == Run(table, data, next, gen, cursor + |ids|, faults, attempt + 1)
  {
    hide Insert, IsPublicIdUniqueViolation, Drawn;
  }

  /** The ids after filling in the missing ones among the first `n`, and the draws that took. */
  function Filled(ids: seq<Option<string>>, n: nat, gen: nat -> string, cursor: nat): (r: (seq<string>, nat))
    requires n <= |ids|
    ensures |r.0| == n
  {
    if n == 0 then ([], cursor)
    else
      var (done, c) := Filled(ids, n - 1, gen, cursor);
      if ids[n - 1].Some? then (done + [ids[n - 1].value], c) else (done + [gen(c)], c + 1)
  }

  lemma FilledNone(ids: seq<Option<string>>, gen: nat -> string, cursor: nat)
    ensures Filled(ids, 0, gen, cursor) == ([], cursor)
  {}

  lemma FilledStep(ids: seq<Option<string>>, n: nat, gen: nat -> string, cursor: nat)
    requires n < |ids|
    ensures var (done, c) := Filled(ids, n, gen, cursor);
      Filled(ids, n + 1, gen, cursor)
      == if ids[n].Some? then (done + [ids[n].value], c) else (done + [gen(c)], c + 1)
  {}

  function Missing(ids: seq<Option<string>>): nat {
    if ids == [] then 0 else Missing(ids[..|ids| - 1]) + if ids[|ids| - 1].None? then 1 else 0
  }

  /** Given ids stay, and the missing ones are the next draws, in row order. */
  lemma {:induction false} FilledTells(ids: seq<Option<string>>, n: nat, gen: nat -> string, cursor: nat)
    requires n <= |ids|
    ensures Filled(ids, n, gen, cursor).1 == cursor + Missing(ids[..n])
    ensures forall i :: 0 <= i < n ==>
      Filled(ids, n, gen, cursor).0[i] == if ids[i].Some? then ids[i].value else gen(cursor + Missing(ids[..i]))
  {
    hide Filled, Missing;
    if n == 0 {
      FilledNone(ids, gen, cursor);
      NoneMissing();
    } else {
      FilledTells(ids, n - 1, gen, cursor);
      FilledStep(ids, n - 1, gen, cursor);
      OneMoreMissing(ids, n - 1);
    }
  }

  lemma NoneMissing()
    ensures Missing([]) == 0
  {}

  lemma OneMoreMissing(ids: seq<Option<string>>, n: nat)
    requires n < |ids|
    ensures Missing(ids[..n + 1]) == Missing(ids[..n]) + if ids[n].None? then 1 else 0
  {
    assert ids[..n + 1][..n] == ids[..n];
  }

  // ----- What the retry guarantees

  /** What any call from attempt number `attempt` on may end in. */
  ghost predicate WellEnded(end: End, table: seq<Record>, data: seq<Data>, ids: seq<string>, gen: nat -> string,
                            cursor: nat, attempt: nat) {
    && attempt < end.attempts <= MAX_RETRIES && |end.ids| == |ids| == |data|
    && (end.result.Ok? ==> end.result.value == table + Batch(end.ids, data) && UniqueIds(end.result.value))
    && end.cursor == cursor + |ids| * Regenerations(end, attempt)
    && (Regenerations(end, attempt) == 0 ==> end.ids == ids)
    && (Regenerations(end, attempt) > 0 ==>
          end.cursor >= |ids| && end.ids == Drawn(gen, end.cursor - |ids|, |ids|))
    && (end.result.Err? && IsPublicIdUniqueViolation(end.result.error) ==> end.attempts == MAX_RETRIES)
  }

  /**
    At most three attempts; every collision regenerates all ids exactly once and nothing
    else does; a collision reaches the caller only after all three attempts; a success adds
    exactly the batch and keeps public ids unique.
  */
  lemma {:induction false} RetryIsBounded(table: seq<Record>, data: seq<Data>, ids: seq<string>, gen: nat -> string,
                                          cursor: nat, faults: nat -> Option<DbError>, attempt: nat)
    requires |ids| == |data| && attempt < MAX_RETRIES && UniqueIds(table)
    ensures WellEnded(Run(table, data, ids, gen, cursor, faults, attempt), table, data, ids, gen, cursor, attempt)
    decreases MAX_RETRIES - attempt
  {
    hide IsPublicIdUniqueViolation, Collides, Batch, Drawn, Run;
    RunUnfolds(table, data, ids, gen, cursor, faults, attempt);
    match Insert(table, ids, data, faults(attempt))
    case Ok(t) => InsertKeepsUnique(table, ids, data);
    case Err(e) =>
      if IsPublicIdUniqueViolation(e) && attempt + 1 < MAX_RETRIES {
        RetryIsBounded(table, data, Drawn(gen, cursor, |ids|), gen, cursor + |ids|, faults, attempt + 1);
        var end := Run(table, data, ids, gen, cursor, faults, attempt);
        Distribute(Regenerations(end, attempt + 1), |ids|);
      }
  }

  /**
    What is retried.  An error that is not about the public id is the caller's at once, with
    the ids as they were and nothing drawn; one that is, the last attempt aside, is retried
    with a new draw for every row.
  */
  lemma OnlyPublicIdErrorsAreRetried(table: seq<Record>, data: seq<Data>, ids: seq<string>, gen: nat -> string,
                                     cursor: nat, faults: nat -> Option<DbError>, attempt: nat)
    requires |ids| == |data| && attempt < MAX_RETRIES
    requires Insert(table, ids, data, faults(attempt)).Err?
    ensures var e := Insert(table, ids, data, faults(attempt)).error;
      var end := Run(table, data, ids, gen, cursor, faults, attempt);
      && (!AboutPublicId(e) ==> end == End(Err(e), ids, cursor, attempt + 1))
      && (AboutPublicId(e) && attempt < 2 ==>
            end == Run(table, data, Drawn(gen, cursor, |ids|), gen, cursor + |ids|, faults, attempt + 1))
  {
    hide Insert, Run, Drawn, IsPublicIdUniqueViolation, AboutPublicId;
    RunUnfolds(table, data, ids, gen, cursor, faults, attempt);
    ViolationIsAboutPublicId(Insert(table, ids, data, faults(attempt)).error);
  }

  /** One per attempt that collided: all but the last, and the last too if that is how it failed. */
  function Regenerations(end: End, from: nat): int {
    end.attempts - from - if end.result.Err? && IsPublicIdUniqueViolation(end.result.error) then 0 else 1
  }

  lemma InsertKeepsUnique(table: seq<Record>, ids: seq<string>, data: seq<Data>)
    requires |ids| == |data| && UniqueIds(table) && !Collides(table, ids)
    ensures UniqueIds(table + Batch(ids, data))
  {
    var all := table + Batch(ids, data);
    forall i, j | 0 <= i < j < |all| ensures all[i].publicId != all[j].publicId {
      if i < |table| <= j {
        assert all[j].publicId == ids[j - |table|];
      } else if |table| <= i {
        assert all[i].publicId == ids[i - |table|] && all[j].publicId == ids[j - |table|];
      }
    }
  }

  /** The `n` draws from number `from` on are pairwise distinct and none is in the table yet. */
  ghost predicate FreshIn(table: seq<Record>, gen: nat -> string, from: nat, n: nat) {
    && (forall i, j :: from <= i < j < from + n ==> gen(i) != gen(j))
    && (forall i, j :: from <= i < from + n && 0 <= j < |table| ==> gen(i) != table[j].publicId)
  }

  lemma FreshIffNoCollision(table: seq<Record>, gen: nat -> string, cursor: nat, n: nat)
    ensures FreshIn(table, gen, cursor, n) <==> !Collides(table, Drawn(gen, cursor, n))
  {
    var ids := Drawn(gen, cursor, n);
    if !Collides(table, ids) {
      assert forall i :: cursor <= i < cursor + n ==> gen(i) == ids[i - cursor];
    }
  }

  /** Without a fault an attempt fails exactly when its ids collide and so do those of every attempt left. */
  lemma FailsIffCollides(table: seq<Record>, data: seq<Data>, ids: seq<string>, gen: nat -> string, cursor: nat,
                         faults: nat -> Option<DbError>, attempt: nat)
    requires |ids| == |data| && attempt < MAX_RETRIES && faults(attempt) == None
    ensures Run(table, data, ids, gen, cursor, faults, attempt).result.Err?
       <==> && Collides(table, ids)
            && (attempt + 1 < MAX_RETRIES ==>
                  Run(table, data, Drawn(gen, cursor, |ids|), gen, cursor + |ids|, faults, attempt + 1).result.Err?)
  {
    hide IsPublicIdUniqueViolation, Collides, Run, Batch, Drawn;
    CollisionIsRecognised();
    RunUnfolds(table, data, ids, gen, cursor, faults, attempt);
  }

  /** The same of an attempt whose ids were drawn. */
  lemma DrawnFailIff(table: seq<Record>, data: seq<Data>, gen: nat -> string, cursor: nat,
                     faults: nat -> Option<DbError>, attempt: nat, next: nat)
    requires attempt < MAX_RETRIES && faults(attempt) == None && next == cursor + |data|
    ensures Run(table, data, Drawn(gen, cursor, |data|), gen, next, faults, attempt).result.Err?
       <==> && !FreshIn(table, gen, cursor, |data|)
            && (attempt + 1 < MAX_RETRIES ==>
                  Run(table, data, Drawn(gen, next, |data|), gen, next + |data|, faults, attempt + 1).result.Err?)
  {
    hide Collides, FreshIn, Run, Drawn;
    FreshIffNoCollision(table, gen, cursor, |data|);
    FailsIffCollides(table, data, Drawn(gen, cursor, |data|), gen, next, faults, attempt);
  }

  /**
    Without other faults the call fails exactly when the caller's ids and both of the
    batches drawn to replace them collide with the table or among themselves.
  */
  lemma FailsIffAllThreeCollide(table: seq<Record>, data: seq<Data>, ids: seq<string>,
                                gen: nat -> string, cursor: nat, faults: nat -> Option<DbError>)
    requires |ids| == |data| && faults(0) == faults(1) == faults(2) == None
    ensures Run(table, data, ids, gen, cursor, faults, 0).result.Err?
       <==> && Collides(table, ids)
            && !FreshIn(table, gen, cursor, |ids|)
            && !FreshIn(table, gen, cursor + |ids|, |ids|)
  {
    hide Collides, FreshIn, Run, Drawn, IsPublicIdUniqueViolation, Batch;
    var next := cursor + |ids|;
    FailsIffCollides(table, data, ids, gen, cursor, faults, 0);
    DrawnFailIff(table, data, gen, cursor, faults, 1, next);
    DrawnFailIff(table, data, gen, next, faults, 2, next + |ids|);
  }

  /**
    When the draws of one regeneration are fresh and no other fault comes in between, the
    insert succeeds: at once when the caller's ids do not collide, which keeps them, and
    otherwise on the second attempt, which replaces every id in the batch.
  */
  lemma FreshIdsSucceedByTheSecondAttempt(table: seq<Record>, data: seq<Data>, ids: seq<string>,
                                          gen: nat -> string, cursor: nat, faults: nat -> Option<DbError>)
    requires |ids| == |data| && FreshIn(table, gen, cursor, |ids|) && faults(0) == faults(1) == None
    ensures var end := Run(table, data, ids, gen, cursor, faults, 0);
      && end.result.Ok?
      && if Collides(table, ids) then end.attempts == 2 && end.ids == Drawn(gen, cursor, |ids|)
         else end.attempts == 1 && end.ids == ids
  {
    hide IsPublicIdUniqueViolation, Collides, FreshIn, Run, Batch, Drawn;
    CollisionIsRecognised();
    FreshIffNoCollision(table, gen, cursor, |ids|);
    RunUnfolds(table, data, ids, gen, cursor, faults, 0);
    RunUnfolds(table, data, Drawn(gen, cursor, |ids|), gen, cursor + |ids|, faults, 1);
  }

  // ----- Random bytes

  /** The id generator of a model: the n-th id it draws encodes the n-th six random bytes. */
  function Generator(t: P.AggregateType, draws: nat -> P.Draw, encode: (nat, nat) -> string): nat -> string {
    (n: nat) => P.Generate(t, draws(n), encode)
  }

  /** No two of the `n` draws from number `from` on give the same six bytes. */
  ghost predicate DistinctDraws(draws: nat -> P.Draw, from: nat, n: nat) {
    forall i, j :: from <= i < j < from + n ==> draws(i) != draws(j)
  }

  ghost predicate NotDrawn(draws: nat -> P.Draw, from: nat, n: nat, e: P.Draw) {
    forall i :: from <= i < from + n ==> draws(i) != e
  }

  /** The bytes an id of type `t` encodes, if it encodes any, are not among those of the `n` draws. */
  ghost predicate NotAhead(id: string, t: P.AggregateType, draws: nat -> P.Draw, encode: (nat, nat) -> string,
                           from: nat, n: nat) {
    forall e :: id == P.Generate(t, e, encode) ==> NotDrawn(draws, from, n, e)
  }

  lemma NotAheadIsNotDrawn(id: string, t: P.AggregateType, draws: nat -> P.Draw, encode: (nat, nat) -> string,
                           from: nat, n: nat)
    requires P.SqidsLike(encode)
    ensures NotAhead(id, t, draws, encode, from, n)
       <==> forall i :: from <= i < from + n ==> Generator(t, draws, encode)(i) != id
  {
    hide P.Generate;
    var gen := Generator(t, draws, encode);
    forall i: nat, e ensures gen(i) == P.Generate(t, e, encode) <==> draws(i) == e {
      P.GenerateIsInjective(t, draws(i), t, e, encode);
    }
    if NotAhead(id, t, draws, encode, from, n) {
      forall i | from <= i < from + n ensures gen(i) != id {
        assert gen(i) == id ==> NotDrawn(draws, from, n, draws(i));
      }
    }
  }

  /**
    In any table, the ids of the next `n` draws are fresh exactly when the random bytes of
    those draws do not repeat and are not those of an id in the table.
  */
  lemma FreshIffDistinctDraws(table: seq<Record>, t: P.AggregateType, draws: nat -> P.Draw,
                              encode: (nat, nat) -> string, from: nat, n: nat)
    requires P.SqidsLike(encode)
    ensures FreshIn(table, Generator(t, draws, encode), from, n)
       <==> && DistinctDraws(draws, from, n)
            && forall j :: 0 <= j < |table| ==> NotAhead(table[j].publicId, t, draws, encode, from, n)
  {
    hide P.Generate, NotAhead;
    var gen := Generator(t, draws, encode);
    forall i: nat, j: nat ensures gen(i) == gen(j) <==> draws(i) == draws(j) {
      P.GenerateIsInjective(t, draws(i), t, draws(j), encode);
    }
    forall j | 0 <= j < |table|
      ensures NotAhead(table[j].publicId, t, draws, encode, from, n)
         <==> forall i :: from <= i < from + n ==> gen(i) != table[j].publicId
    {
      NotAheadIsNotDrawn(table[j].publicId, t, draws, encode, from, n);
    }
  }

  /**
    Ids that were not generated for the type are never in the way: those of other types, and
    those with a character the encoder does not use, such as the backfilled `usr_0123456789ab`.
  */
  lemma OtherIdsAreNotAhead(id: string, t: P.AggregateType, draws: nat -> P.Draw, encode: (nat, nat) -> string,
                            from: nat, n: nat)
    requires P.SqidsLike(encode)
    requires || P.ExtractAggregateType(id) != Some(t)
             || exists k :: |P.Prefix(t)| < k < |id| && id[k] !in P.ALPHABET
    ensures NotAhead(id, t, draws, encode, from, n)
  {
    hide P.Generate, P.ALPHABET, P.Prefix, P.ExtractAggregateType, P.SqidsLike;
    forall e | id == P.Generate(t, e, encode) ensures false {
      P.GeneratedIsValid(t, e, encode, t);
      P.GeneratedIsInAlphabet(t, e, encode);
    }
  }

  /** Every id a retry puts in place is valid for the model's type. */
  lemma DrawnIdsAreValid(t: P.AggregateType, draws: nat -> P.Draw, encode: (nat, nat) -> string, cursor: nat, n: nat)
    requires P.SqidsLike(encode)
    ensures forall i :: 0 <= i < n ==> P.IsValidShape(Drawn(Generator(t, draws, encode), cursor, n)[i], Some(t))
  {
    hide P.Generate, P.IsValidShape;
    forall i | 0 <= i < n ensures P.IsValidShape(Drawn(Generator(t, draws, encode), cursor, n)[i], Some(t)) {
      P.GeneratedIsValid(t, draws(cursor + i), encode, t);
    }
  }

  /**
    The retry over real random bytes, in a table that may hold ids from anywhere: one
    regeneration whose bytes do not repeat, and are those of no id in the table, is enough.
    The call then succeeds with the caller's ids, or at the second attempt with ids that are
    all valid for the model's type.
  */
  lemma DistinctDrawsSucceed(table: seq<Record>, data: seq<Data>, ids: seq<string>, t: P.AggregateType,
                             draws: nat -> P.Draw, encode: (nat, nat) -> string, cursor: nat,
                             faults: nat -> Option<DbError>)
    requires |ids| == |data| && UniqueIds(table) && P.SqidsLike(encode) && faults(0) == faults(1) == None
    requires DistinctDraws(draws, cursor, |ids|)
    requires forall j :: 0 <= j < |table| ==> NotAhead(table[j].publicId, t, draws, encode, cursor, |ids|)
    ensures var end := Run(table, data, ids, Generator(t, draws, encode), cursor, faults, 0);
      && |end.ids| == |ids| && end.result == Ok(table + Batch(end.ids, data)) && UniqueIds(end.result.value)
      && if Collides(table, ids) then
           end.attempts == 2 && forall i :: 0 <= i < |ids| ==> P.IsValidShape(end.ids[i], Some(t))
         else
           end.attempts == 1 && end.ids == ids
  {
    hide P.Generate, P.IsValidShape, P.SqidsLike, Run, Collides, FreshIn, NotAhead, DistinctDraws, UniqueIds;
    hide Drawn, Batch;
    FreshIffDistinctDraws(table, t, draws, encode, cursor, |ids|);
    FreshIdsSucceedByTheSecondAttempt(table, data, ids, Generator(t, draws, encode), cursor, faults);
    RetryIsBounded(table, data, ids, Generator(t, draws, encode), cursor, faults, 0);
    DrawnIdsAreValid(t, draws, encode, cursor, |ids|);
  }

  // ----- The middleware on the caller's rows

  /** A row of the caller's arguments: only its public id is ever written. */
  class RowArgs {
    const data: Data
    var publicId: Option<string>

    constructor (data: Data, publicId: Option<string>)
      ensures this.data == data && this.publicId == publicId
    {
      this.data, this.publicId := data, publicId;
    }
  }

  function DataOf(rows: seq<RowArgs>): (r: seq<Data>)
    ensures |r| == |rows| && forall i :: 0 <= i < |rows| ==> r[i] == rows[i].data
  {
    seq(|rows|, i requires 0 <= i < |rows| => rows[i].data)
  }

  ghost function IdsOf(rows: seq<RowArgs>): (r: seq<Option<string>>)
    reads rows
    ensures |r| == |rows| && forall i :: 0 <= i < |rows| ==> r[i] == rows[i].publicId
  {
    seq(|rows|, i requires 0 <= i < |rows| reads rows => rows[i].publicId)
  }

  function Somes(ids: seq<string>): (r: seq<Option<string>>)
    ensures |r| == |ids| && forall i :: 0 <= i < |ids| ==> r[i] == Some(ids[i])
  {
    seq(|ids|, i requires 0 <= i < |ids| => Some(ids[i]))
  }

  ghost predicate AllHaveIds(rows: seq<RowArgs>)
    reads rows
  {
    forall i :: 0 <= i < |rows| ==> rows[i].publicId.Some?
  }

  // ----- One row twice

  /** Why an insert of colliding ids fails. */
  function ErrorOf(fault: Option<DbError>): DbError { if fault.Some? then fault.value else COLLISION }

  /** How a call ends, and after how many attempts, when the ids of every attempt collide. */
  function Doomed(faults: nat -> Option<DbError>, attempt: nat): (Result<(), DbError>, nat)
    requires attempt < MAX_RETRIES
    decreases MAX_RETRIES - attempt
  {
    var e := ErrorOf(faults(attempt));
    if !IsPublicIdUniqueViolation(e) || attempt + 1 == MAX_RETRIES then (Err(e), attempt + 1)
    else Doomed(faults, attempt + 1)
  }

  lemma TwinsCollide(table: seq<Record>, rows: seq<RowArgs>, ids: seq<string>)
    requires !Distinct(rows) && IdsOf(rows) == Somes(ids)
    ensures Collides(table, ids)
  {
    var i, j :| 0 <= i < j < |rows| && rows[i] == rows[j];
    assert Somes(ids)[i] == IdsOf(rows)[i] == IdsOf(rows)[j] == Somes(ids)[j];
    assert ids[i] == ids[j];
  }

  /** Without other faults an array with one row in it twice fails all three attempts. */
  lemma TwinsFailThreeTimes(faults: nat -> Option<DbError>)
    requires faults(0) == faults(1) == faults(2) == None
    ensures Doomed(faults, 0) == (Err(COLLISION), MAX_RETRIES)
  {
    hide IsPublicIdUniqueViolation;
    CollisionIsRecognised();
  }

  lemma SomesAreUnique(ids: seq<string>)
    ensures forall other :: Somes(other) == Somes(ids) ==> other == ids
  {
    forall other | Somes(other) == Somes(ids) ensures other == ids {
      assert forall i :: 0 <= i < |ids| ==> Somes(other)[i] == Somes(ids)[i];
    }
  }

  class Middleware {
    const gen: nat -> string
    const faults: nat -> Option<DbError>
    var cursor: nat
    var table: seq<Record>

    constructor (gen: nat -> string, faults: nat -> Option<DbError>, table: seq<Record>)
      ensures this.gen == gen && this.faults == faults && cursor == 0 && this.table == table
    {
      this.gen, this.faults, cursor, this.table := gen, faults, 0, table;
    }

    method Generate() returns (id: string)
      modifies this`cursor
      ensures id == gen(old(cursor)) && cursor == old(cursor) + 1
    {
      id := gen(cursor);
      cursor := cursor + 1;
    }

    /**
      Gives every row without a public id a generated one.  An array that holds one row twice
      is filled like any other: at its second place the row has its id already.
    */
    method FillMissing(rows: seq<RowArgs>)
      modifies this`cursor, rows
      ensures Distinct(rows) ==>
        var (ids, c) := Filled(old(IdsOf(rows)), |rows|, gen, old(cursor));
        IdsOf(rows) == Somes(ids) && cursor == c
      ensures AllHaveIds(rows)
      ensures forall row :: row in rows && old(row.publicId).Some? ==> row.publicId == old(row.publicId)
    {
      hide Filled;
      ghost var before := IdsOf(rows);
      ghost var done: seq<string> := [];
      FilledNone(before, gen, cursor);
      for i := 0 to |rows|
        invariant Distinct(rows) ==> Filled(before, i, gen, old(cursor)) == (done, cursor)
        invariant Distinct(rows) ==> forall k :: 0 <= k < i ==> rows[k].publicId == Some(done[k])
        invariant Distinct(rows) ==> forall k :: i <= k < |rows| ==> rows[k].publicId == before[k]
        invariant forall k :: 0 <= k < i ==> rows[k].publicId.Some?
        invariant forall row :: row in rows && old(row.publicId).Some? ==> row.publicId == old(row.publicId)
      {
        FilledStep(before, i, gen, old(cursor));
        if rows[i].publicId.None? {
          var id := Generate();
          rows[i].publicId := Some(id);
        }
        done := done + [rows[i].publicId.value];
      }
    }

    method RegenerateAll(rows: seq<RowArgs>)
      modifies this`cursor, rows
      ensures Distinct(rows) ==> IdsOf(rows) == Somes(Drawn(gen, old(cursor), |rows|))
      ensures AllHaveIds(rows) && cursor == old(cursor) + |rows|
    {
      for i := 0 to |rows|
        invariant cursor == old(cursor) + i
        invariant Distinct(rows) ==> forall k :: 0 <= k < i ==> rows[k].publicId == Some(gen(old(cursor) + k))
        invariant forall k :: 0 <= k < i ==> rows[k].publicId.Some?
      {
        var id := Generate();
        rows[i].publicId := Some(id);
      }
    }

    /** `next(params)`: the insert itself.  A row that is in the array twice collides with itself. */
    method Next(rows: seq<RowArgs>, attempt: nat) returns (r: Result<(), DbError>)
      requires AllHaveIds(rows)
      modifies this`table
      ensures forall ids :: IdsOf(rows) == Somes(ids) ==>
        match Insert(old(table), ids, DataOf(rows), faults(attempt))
        case Ok(t) => r == Ok(()) && table == t
        case Err(e) => r == Err(e) && table == old(table)
      ensures !Distinct(rows) ==> r == Err(ErrorOf(faults(attempt))) && table == old(table)
    {
      hide Collides;
      var ids := seq(|rows|, i requires 0 <= i < |rows| && rows[i].publicId.Some? reads rows => rows[i].publicId.value);
      assert IdsOf(rows) == Somes(ids);
      SomesAreUnique(ids);
      if !Distinct(rows) {
        TwinsCollide(table, rows, ids);
      }
      var inserted := Insert(table, ids, DataOf(rows), faults(attempt));
      match inserted {
        case Ok(t) =>
          table := t;
          r := Ok(());
        case Err(e) =>
          r := Err(e);
      }
    }

    /** One attempt of the loop; `fillInRun` is the create branch, whose attempt itself fills a missing id. */
    method Attempt(rows: seq<RowArgs>, fillInRun: bool, attempt: nat, ghost ids: seq<string>, ghost c: nat)
      returns (r: Result<(), DbError>)
      requires |ids| == |rows| && (!fillInRun ==> AllHaveIds(rows))
      requires Distinct(rows) ==>
        if fillInRun then Filled(IdsOf(rows), |rows|, gen, cursor) == (ids, c)
        else IdsOf(rows) == Somes(ids) && cursor == c
      modifies this`table, this`cursor, rows
      ensures Distinct(rows) ==> IdsOf(rows) == Somes(ids) && cursor == c
      ensures Distinct(rows) ==>
        match Insert(old(table), ids, DataOf(rows), faults(attempt))
        case Ok(t) => r == Ok(()) && table == t
        case Err(e) => r == Err(e) && table == old(table)
      ensures !Distinct(rows) ==> r == Err(ErrorOf(faults(attempt))) && table == old(table)
    {
      hide Insert, Filled, IdsOf, Somes, DataOf;
      if fillInRun {
        FillMissing(rows);
      }
      r := Next(rows, attempt);
    }

    /**
      The counted loop.  Distinct rows end as the specification's run does; an array that
      holds one row twice fails all its attempts, unless another fault ends it before.
    */
    method RunWithPublicIdRetry(rows: seq<RowArgs>, fillInRun: bool)
      returns (r: Result<(), DbError>, ghost attempts: nat)
      requires !fillInRun ==> AllHaveIds(rows)
      modifies this, rows
      ensures Distinct(rows) ==>
        var (ids, c) := Filled(old(IdsOf(rows)), |rows|, gen, old(cursor));
        var end := Run(old(table), DataOf(rows), ids, gen, c, faults, 0);
        && IdsOf(rows) == Somes(end.ids) && cursor == end.cursor && attempts == end.attempts
        && match end.result
           case Ok(t) => r == Ok(()) && table == t
           case Err(e) => r == Err(e) && table == old(table)
      ensures !Distinct(rows) ==> (r, attempts) == Doomed(faults, 0) && table == old(table)
    {
      hide Insert, IsPublicIdUniqueViolation, Filled, Run, Drawn, IdsOf, Somes, DataOf;
      ghost var (now, at) := Filled(IdsOf(rows), |rows|, gen, cursor);
      if !fillInRun {
        NothingMissing(IdsOf(rows), |rows|, gen, cursor);
      }
      ghost var end := Run(table, DataOf(rows), now, gen, at, faults, 0);
      var lastError: Option<DbError> := None;
      var attempt := 0;
      while attempt < MAX_RETRIES
        invariant 0 <= at && attempt <= MAX_RETRIES && |now| == |rows| && table == old(table)
        invariant !fillInRun || attempt > 0 ==> AllHaveIds(rows)
        invariant Distinct(rows) && fillInRun ==> Filled(IdsOf(rows), |rows|, gen, cursor) == (now, at)
        invariant Distinct(rows) && (!fillInRun || attempt > 0) ==> IdsOf(rows) == Somes(now) && cursor == at
        invariant Distinct(rows) && attempt < MAX_RETRIES ==>
                    Run(table, DataOf(rows), now, gen, at, faults, attempt) == end
        invariant Distinct(rows) && attempt == MAX_RETRIES ==>
                    lastError.Some? && end == End(Err(lastError.value), now, at, attempt)
        invariant !Distinct(rows) && attempt < MAX_RETRIES ==> Doomed(faults, attempt) == Doomed(faults, 0)
        invariant !Distinct(rows) && attempt == MAX_RETRIES ==>
                    lastError.Some? && Doomed(faults, 0) == (Err(lastError.value), attempt)
      {
        RunUnfolds(table, DataOf(rows), now, gen, at, faults, attempt);
        var outcome := Attempt(rows, fillInRun, attempt, now, at);
        attempt := attempt + 1;
        if outcome.Ok? {
          return outcome, attempt;
        }
        lastError := Some(outcome.error);
        if !IsPublicIdUniqueViolation(outcome.error) {
          return outcome, attempt;
        }
        RegenerateAll(rows);
        now, at := Drawn(gen, at, |rows|), at + |rows|;
        AlreadyFilled(now, |now|, gen, at);
      }
      r, attempts := Err(lastError.value), attempt;
    }

    method Create(row: RowArgs) returns (r: Result<(), DbError>, ghost attempts: nat)
      modifies this, row
      ensures var (ids, c) := Filled([old(row.publicId)], 1, gen, old(cursor));
        var end := Run(old(table), [row.data], ids, gen, c, faults, 0);
        && row.publicId == Some(end.ids[0]) && cursor == end.cursor && attempts == end.attempts
        && match end.result
           case Ok(t) => r == Ok(()) && table == t
           case Err(e) => r == Err(e) && table == old(table)
    {
      hide Run, Filled;
      var rows := [row];
      assert IdsOf(rows) == [row.publicId] && DataOf(rows) == [row.data];
      r, attempts := RunWithPublicIdRetry(rows, true);
      assert IdsOf(rows)[0] == row.publicId;
    }

    method CreateMany(rows: seq<RowArgs>) returns (r: Result<(), DbError>, ghost attempts: nat)
      modifies this, rows
      ensures Distinct(rows) ==>
        var (ids, c) := Filled(old(IdsOf(rows)), |rows|, gen, old(cursor));
        var end := Run(old(table), DataOf(rows), ids, gen, c, faults, 0);
        && IdsOf(rows) == Somes(end.ids) && cursor == end.cursor && attempts == end.attempts
        && match end.result
           case Ok(t) => r == Ok(()) && table == t
           case Err(e) => r == Err(e) && table == old(table)
      ensures !Distinct(rows) ==> (r, attempts) == Doomed(faults, 0) && table == old(table)
    {
      hide Run;
      ghost var (ids, c) := Filled(IdsOf(rows), |rows|, gen, cursor);
      FillMissing(rows);
      AlreadyFilled(ids, |rows|, gen, cursor);
      r, attempts := RunWithPublicIdRetry(rows, false);
    }
  }

  /** Filling ids that are all there draws nothing and changes nothing. */
  lemma {:induction false} AlreadyFilled(ids: seq<string>, n: nat, gen: nat -> string, cursor: nat)
    requires n <= |ids|
    ensures Filled(Somes(ids), n, gen, cursor) == (ids[..n], cursor)
    ensures n == |ids| ==> Filled(Somes(ids), n, gen, cursor) == (ids, cursor)
  {
    if n > 0 {
      AlreadyFilled(ids, n - 1, gen, cursor);
      assert ids[..n] == ids[..n - 1] + [ids[n - 1]];
    }
    assert ids[..|ids|] == ids;
  }

  lemma NothingMissing(ids: seq<Option<string>>, n: nat, gen: nat -> string, cursor: nat)
    requires n == |ids| && forall i :: 0 <= i < n ==> ids[i].Some?
    ensures Filled(ids, n, gen, cursor).1 == cursor && Somes(Filled(ids, n, gen, cursor).0) == ids
  {
    var values := seq(n, i requires 0 <= i < n => ids[i].value);
    assert Somes(values) == ids;
    AlreadyFilled(values, n, gen, cursor);
  }
}
