/** The egress rewriter: public ids replace internal ids, and residual UUIDs are reported or refused. */
module PublicIdSerializer {
  import opened Collections
  import opened PublicId

  /** A JSON tree; an object lists its entries in enumeration order. */
  datatype Json =
    | Undefined | Null | Bool(b: bool) | Num(n: real) | Str(s: string)
    | Arr(items: seq<Json>) | Obj(entries: seq<Entry>)

  datatype Entry = Entry(key: string, value: Json)

  // ----- Keys

  predicate EndsWith(s: string, suffix: string) { |s| >= |suffix| && s[|s| - |suffix|..] == suffix }

  predicate IsCompanionKey(key: string) { key == "publicId" || EndsWith(key, "PublicId") }

  predicate IsLineTerminator(c: char) { c == '\n' || c == '\r' || c == '\U{2028}' || c == '\U{2029}' }

  /** `/^(.+)Id$/`; the dot matches no line terminator. */
  predicate IsForeignKey(key: string) {
    |key| >= 3 && EndsWith(key, "Id") && forall i :: 0 <= i < |key| - 2 ==> !IsLineTerminator(key[i])
  }

  function Lookup(entries: seq<Entry>, key: string): Option<Json> {
    if entries == [] then None
    else if entries[0].key == key then Some(entries[0].value)
    else Lookup(entries[1..], key)
  }

  function NonEmptyString(v: Option<Json>): Option<string> {
    if v.Some? && v.value.Str? && v.value.s != "" then Some(v.value.s) else None
  }

  /** The companion string that replaces a key's value, if there is one. */
  function Companion(entries: seq<Entry>, key: string): Option<string> {
    if key == "id" then NonEmptyString(Lookup(entries, "publicId"))
    else if IsForeignKey(key) then NonEmptyString(Lookup(entries, key[..|key| - 2] + "PublicId"))
    else None
  }

  // ----- The rewrite as a function of the tree

  function Rewritten(v: Json): Json
    decreases v, 1
  {
    match v
    case Arr(items) => Arr(RewrittenItems(items, |items|))
    case Obj(entries) => Obj(RewrittenEntries(entries, |entries|))
    case _ => v
  }

  function RewrittenItems(items: seq<Json>, n: nat): (r: seq<Json>)
    requires n <= |items|
    ensures |r| == n
    decreases items, 0, n
  {
    if n == 0 then [] else RewrittenItems(items, n - 1) + [Rewritten(items[n - 1])]
  }

  /** What becomes of the first `n` entries of an object. */
  function RewrittenEntries(entries: seq<Entry>, n: nat): seq<Entry>
    requires n <= |entries|
    decreases entries, 0, n
  {
    if n == 0 then []
    else
      var out, e := RewrittenEntries(entries, n - 1), entries[n - 1];
      if IsCompanionKey(e.key) then out
      else
        match Companion(entries, e.key)
        case Some(s) => out + [Entry(e.key, Str(s))]
        case None => out + [Entry(e.key, Rewritten(e.value))]
  }

  datatype Segment = Index(i: nat) | Key(name: string)

  datatype Leak = Leak(path: seq<Segment>, value: string)

  /** The UUID-shaped strings the rewrite meets, in order, with their paths. */
  function Leaks(v: Json, path: seq<Segment>): seq<Leak>
    decreases v, 1
  {
    match v
    case Str(s) => if LooksLikeUuid(s) then [Leak(path, s)] else []
    case Arr(items) => ItemLeaks(items, |items|, path)
    case Obj(entries) => EntryLeaks(entries, |entries|, path)
    case _ => []
  }

  function ItemLeaks(items: seq<Json>, n: nat, path: seq<Segment>): seq<Leak>
    requires n <= |items|
    decreases items, 0, n
  {
    if n == 0 then [] else ItemLeaks(items, n - 1, path) + Leaks(items[n - 1], path + [Index(n - 1)])
  }

  function EntryLeaks(entries: seq<Entry>, n: nat, path: seq<Segment>): seq<Leak>
    requires n <= |entries|
    decreases entries, 0, n
  {
    if n == 0 then []
    else
      var e := entries[n - 1];
      EntryLeaks(entries, n - 1, path)
      + if IsCompanionKey(e.key) || Companion(entries, e.key).Some? then [] else Leaks(e.value, path + [Key(e.key)])
  }

  // ----- The interceptor

  class Interceptor {
    const enabled: bool
    const strict: bool
    var warnings: seq<Leak>

    constructor (enabled: bool, strict: bool)
      ensures this.enabled == enabled && this.strict == strict && warnings == []
    {
      this.enabled, this.strict, warnings := enabled, strict, [];
    }

    /** What a rewrite with the given leaks returns: strict mode throws at the first one. */
    function Outcome<T>(leaks: seq<Leak>, value: T): Result<T, Leak> {
      if strict && leaks != [] then Err(leaks[0]) else Ok(value)
    }

    /** A disabled interceptor passes every body through. */
    method Intercept(body: Json) returns (r: Result<Json, Leak>)
      requires UniqueKeys(body)
      modifies this
      ensures !enabled ==> r == Ok(body) && warnings == old(warnings)
      ensures enabled ==> r == Outcome(Leaks(body, []), Rewritten(body))
      ensures enabled ==> warnings == old(warnings) + if strict then [] else Leaks(body, [])
    {
      if !enabled {
        return Ok(body);
      }
      r := Rewrite(body, []);
    }

    method AssertNoUuidLeak(value: string, path: seq<Segment>) returns (r: Result<(), Leak>)
      modifies this
      ensures var leaks := if LooksLikeUuid(value) then [Leak(path, value)] else [];
        r == Outcome(leaks, ()) && warnings == old(warnings) + if strict then [] else leaks
    {
      if !LooksLikeUuid(value) {
        return Ok(());
      }
      if strict {
        return Err(Leak(path, value));
      }
      warnings := warnings + [Leak(path, value)];
      r := Ok(());
    }

    method Rewrite(value: Json, path: seq<Segment>) returns (r: Result<Json, Leak>)
      requires UniqueKeys(value)
      modifies this
      ensures r == Outcome(Leaks(value, path), Rewritten(value))
      ensures warnings == old(warnings) + if strict then [] else Leaks(value, path)
      decreases value, 1
    {
      match value {
        case Str(s) =>
          var checked := AssertNoUuidLeak(s, path);
          return if checked.Ok? then Ok(value) else Err(checked.error);
        case Arr(items) =>
          var out := RewriteItems(items, path);
          return if out.Ok? then Ok(Arr(out.value)) else Err(out.error);
        case Obj(entries) =>
          var out := RewriteObject(entries, path);
          return if out.Ok? then Ok(Obj(out.value)) else Err(out.error);
        case _ =>
          return Ok(value);
      }
    }

    method RewriteItems(items: seq<Json>, path: seq<Segment>) returns (r: Result<seq<Json>, Leak>)
      requires UniqueKeys(Arr(items))
      modifies this
      ensures r == Outcome(ItemLeaks(items, |items|, path), RewrittenItems(items, |items|))
      ensures warnings == old(warnings) + if strict then [] else ItemLeaks(items, |items|, path)
      decreases items, 0
    {
      hide RewrittenItems, ItemLeaks, Leaks, Rewritten;
      NoItems(items, path);
      var out: seq<Json> := [];
      for i := 0 to |items|
        invariant out == RewrittenItems(items, i)
        invariant strict ==> ItemLeaks(items, i, path) == []
        invariant warnings == old(warnings) + if strict then [] else ItemLeaks(items, i, path)
      {
        ItemStep(items, i, path);
        var item := Rewrite(items[i], path + [Index(i)]);
        if item.Err? {
          FirstItemLeak(items, i, path);
          return Err(item.error);
        }
        out := out + [item.value];
      }
      r := Ok(out);
    }

    method RewriteObject(entries: seq<Entry>, path: seq<Segment>) returns (r: Result<seq<Entry>, Leak>)
      requires UniqueKeys(Obj(entries))
      modifies this
      ensures r == Outcome(EntryLeaks(entries, |entries|, path), RewrittenEntries(entries, |entries|))
      ensures warnings == old(warnings) + if strict then [] else EntryLeaks(entries, |entries|, path)
      decreases entries, 0
    {
      hide Companion, IsCompanionKey, Put, RewrittenEntries, EntryLeaks, Leaks, Rewritten;
      NoEntries(entries, path);
      var out: seq<Entry> := [];
      for i := 0 to |entries|
        invariant out == RewrittenEntries(entries, i)
        invariant strict ==> EntryLeaks(entries, i, path) == []
        invariant warnings == old(warnings) + if strict then [] else EntryLeaks(entries, i, path)
      {
        var e := entries[i];
        EntryStep(entries, i, path);
        if IsCompanionKey(e.key) { continue; }
        KeyIsNew(entries, i, e.key);
        var companion := Companion(entries, e.key);
        if companion.Some? {
          PutNew(out, e.key, Str(companion.value));
          out := Put(out, e.key, Str(companion.value));
          continue;
        }
        var value := Rewrite(e.value, path + [Key(e.key)]);
        if value.Err? {
          FirstEntryLeak(entries, i, path);
          return Err(value.error);
        }
        PutNew(out, e.key, value.value);
        out := Put(out, e.key, value.value);
      }
      r := Ok(out);
    }
  }

  lemma NoItems(items: seq<Json>, path: seq<Segment>)
    ensures RewrittenItems(items, 0) == [] && ItemLeaks(items, 0, path) == []
  {}

  lemma ItemStep(items: seq<Json>, i: nat, path: seq<Segment>)
    requires i < |items|
    ensures RewrittenItems(items, i + 1) == RewrittenItems(items, i) + [Rewritten(items[i])]
    ensures ItemLeaks(items, i + 1, path) == ItemLeaks(items, i, path) + Leaks(items[i], path + [Index(i)])
  {
    hide Leaks, Rewritten;
  }

  lemma NoEntries(entries: seq<Entry>, path: seq<Segment>)
    ensures RewrittenEntries(entries, 0) == [] && EntryLeaks(entries, 0, path) == []
  {}

  /** What one more entry adds. */
  lemma EntryStep(entries: seq<Entry>, i: nat, path: seq<Segment>)
    requires i < |entries|
    ensures var e := entries[i];
      var companion := Companion(entries, e.key);
      && RewrittenEntries(entries, i + 1)
         == RewrittenEntries(entries, i)
            + (if IsCompanionKey(e.key) then []
               else [Entry(e.key, if companion.Some? then Str(companion.value) else Rewritten(e.value))])
      && EntryLeaks(entries, i + 1, path)
         == EntryLeaks(entries, i, path)
            + (if IsCompanionKey(e.key) || companion.Some? then [] else Leaks(e.value, path + [Key(e.key)]))
  {
    hide Companion, IsCompanionKey, Leaks, Rewritten;
  }

  /** No object has a key twice, at any depth. */
  predicate UniqueKeys(v: Json) {
    match v
    case Arr(items) => forall i :: 0 <= i < |items| ==> UniqueKeys(items[i])
    case Obj(entries) =>
      && (forall i, j :: 0 <= i < j < |entries| ==> entries[i].key != entries[j].key)
      && forall i :: 0 <= i < |entries| ==> UniqueKeys(entries[i].value)
    case _ => true
  }

  /** `out[key] = value`: an existing key keeps its place, a new one goes last. */
  function Put(out: seq<Entry>, key: string, value: Json): seq<Entry> {
    if out == [] then [Entry(key, value)]
    else if out[0].key == key then [Entry(key, value)] + out[1..]
    else [out[0]] + Put(out[1..], key, value)
  }

  lemma {:induction false} PutNew(out: seq<Entry>, key: string, value: Json)
    requires forall k :: 0 <= k < |out| ==> out[k].key != key
    ensures Put(out, key, value) == out + [Entry(key, value)]
  {
    if out != [] {
      PutNew(out[1..], key, value);
    }
  }

  lemma {:induction false} KeyIsNew(entries: seq<Entry>, n: nat, key: string)
    requires n <= |entries| && forall j :: 0 <= j < n ==> entries[j].key != key
    ensures forall k :: 0 <= k < |RewrittenEntries(entries, n)| ==> RewrittenEntries(entries, n)[k].key != key
  {
    hide IsCompanionKey, Companion;
    if n > 0 {
      KeyIsNew(entries, n - 1, key);
    }
  }

  lemma {:induction false} FirstItemLeak(items: seq<Json>, i: nat, path: seq<Segment>)
    requires i < |items| && ItemLeaks(items, i, path) == [] && Leaks(items[i], path + [Index(i)]) != []
    ensures ItemLeaks(items, |items|, path) != []
    ensures ItemLeaks(items, |items|, path)[0] == Leaks(items[i], path + [Index(i)])[0]
  {
    ItemLeaksGrow(items, i + 1, |items|, path);
  }

  lemma {:induction false} ItemLeaksGrow(items: seq<Json>, m: nat, n: nat, path: seq<Segment>)
    requires m <= n <= |items|
    ensures ItemLeaks(items, m, path) <= ItemLeaks(items, n, path)
    decreases n - m
  {
    if m < n {
      ItemLeaksGrow(items, m, n - 1, path);
    }
  }

  lemma {:induction false} FirstEntryLeak(entries: seq<Entry>, i: nat, path: seq<Segment>)
    requires i < |entries| && EntryLeaks(entries, i, path) == []
    requires !IsCompanionKey(entries[i].key) && Companion(entries, entries[i].key).None?
    requires Leaks(entries[i].value, path + [Key(entries[i].key)]) != []
    ensures EntryLeaks(entries, |entries|, path) != []
    ensures EntryLeaks(entries, |entries|, path)[0] == Leaks(entries[i].value, path + [Key(entries[i].key)])[0]
  {
    EntryLeaksGrow(entries, i + 1, |entries|, path);
  }

  lemma {:induction false} EntryLeaksGrow(entries: seq<Entry>, m: nat, n: nat, path: seq<Segment>)
    requires m <= n <= |entries|
    ensures EntryLeaks(entries, m, path) <= EntryLeaks(entries, n, path)
    decreases n - m
  {
    if m < n {
      EntryLeaksGrow(entries, m, n - 1, path);
    }
  }

  // ----- What the rewrite guarantees

  /** No `publicId` or `<name>PublicId` key at any depth. */
  predicate CompanionFree(v: Json) {
    match v
    case Arr(items) => forall i :: 0 <= i < |items| ==> CompanionFree(items[i])
    case Obj(entries) =>
      forall i :: 0 <= i < |entries| ==> !IsCompanionKey(entries[i].key) && CompanionFree(entries[i].value)
    case _ => true
  }

  /** The entries of an object that the rewrite keeps. */
  function Kept(entries: seq<Entry>, n: nat): seq<Entry>
    requires n <= |entries|
  {
    if n == 0 then []
    else Kept(entries, n - 1) + if IsCompanionKey(entries[n - 1].key) then [] else [entries[n - 1]]
  }

  /**
    An object keeps its remaining keys in their order, and a value is replaced exactly when
    its key has a non-empty companion string, and then by that string.
  */
  lemma {:induction false} ObjectKeepsItsOtherKeys(entries: seq<Entry>, n: nat)
    requires n <= |entries|
    ensures var r, kept := RewrittenEntries(entries, n), Kept(entries, n);
      && |r| == |kept|
      && forall i :: 0 <= i < |kept| ==>
           && r[i].key == kept[i].key && !IsCompanionKey(r[i].key)
           && r[i].value == match Companion(entries, kept[i].key)
                            case Some(s) => Str(s)
                            case None => Rewritten(kept[i].value)
  {
    hide Companion, IsCompanionKey, Rewritten;
    if n > 0 {
      ObjectKeepsItsOtherKeys(entries, n - 1);
    }
  }

  /** The keys that are merged away: `publicId`, and any name at all, even none, before `PublicId`. */
  lemma CompanionKeysEndInPublicId(key: string)
    ensures IsCompanionKey(key) <==> key == "publicId" || exists name :: key == name + "PublicId"
  {
    var suffix := "PublicId";
    if EndsWith(key, suffix) {
      assert key == key[..|key| - 8] + suffix;
    }
    forall name | key == name + suffix ensures EndsWith(key, suffix) {
      assert key[|key| - 8..] == suffix;
    }
  }

  /** What is kept of an object: at increasing places `at`, just the entries whose key is not merged away. */
  lemma {:induction false} KeptIsTheRest(entries: seq<Entry>, n: nat) returns (at: seq<nat>)
    requires n <= |entries|
    ensures |at| == |Kept(entries, n)| && forall j, k :: 0 <= j < k < |at| ==> at[j] < at[k]
    ensures forall k :: 0 <= k < |at| ==>
      at[k] < n && Kept(entries, n)[k] == entries[at[k]] && !IsCompanionKey(entries[at[k]].key)
    ensures forall i: nat :: i < n && !IsCompanionKey(entries[i].key) ==> i in at
  {
    hide IsCompanionKey, Kept;
    KeptStep(entries, n);
    if n == 0 {
      at := [];
    } else {
      var before := KeptIsTheRest(entries, n - 1);
      at := before;
      if !IsCompanionKey(entries[n - 1].key) {
        at := before + [n - 1];
        assert at[|before|] == n - 1 && forall i :: i in before ==> i in at;
      }
    }
  }

  lemma KeptStep(entries: seq<Entry>, n: nat)
    requires n <= |entries|
    ensures if n == 0 then Kept(entries, n) == []
            else Kept(entries, n)
                 == Kept(entries, n - 1) + if IsCompanionKey(entries[n - 1].key) then [] else [entries[n - 1]]
  {
    hide IsCompanionKey;
  }

  /** An array keeps its length, and element k becomes the rewrite of element k; anything else but an object stays. */
  lemma ArraysAreRewrittenInPlace(v: Json)
    ensures v.Arr? ==>
      var r := Rewritten(v);
      r.Arr? && |r.items| == |v.items| && forall k :: 0 <= k < |v.items| ==> r.items[k] == Rewritten(v.items[k])
    ensures !v.Arr? && !v.Obj? ==> Rewritten(v) == v
  {
    if v.Arr? {
      ItemByItem(v.items, |v.items|);
    }
  }

  lemma {:induction false} ItemByItem(items: seq<Json>, n: nat)
    requires n <= |items|
    ensures forall k :: 0 <= k < n ==> RewrittenItems(items, n)[k] == Rewritten(items[k])
  {
    hide Rewritten;
    if n > 0 {
      ItemByItem(items, n - 1);
    }
  }

  /** `id` goes with `publicId`, and `<name>Id` with `<name>PublicId` for any name on one line. */
  ghost predicate NamesCompanion(key: string, companionKey: string) {
    || (key == "id" && companionKey == "publicId")
    || exists name :: IsName(name) && key == name + "Id" && companionKey == name + "PublicId"
  }

  predicate IsName(name: string) { name != "" && forall i :: 0 <= i < |name| ==> !IsLineTerminator(name[i]) }

  lemma {:induction false} LookupIsTheValue(entries: seq<Entry>, i: nat)
    requires i < |entries| && forall j, k :: 0 <= j < k < |entries| ==> entries[j].key != entries[k].key
    ensures Lookup(entries, entries[i].key) == Some(entries[i].value)
  {
    if i > 0 {
      assert entries[0].key != entries[i].key;
      LookupIsTheValue(entries[1..], i - 1);
    }
  }

  lemma NameOfForeignKey(key: string, name: string)
    ensures IsName(name) && key == name + "Id" <==> IsForeignKey(key) && name == key[..|key| - 2]
  {
    if IsForeignKey(key) && name == key[..|key| - 2] {
      assert key == key[..|key| - 2] + key[|key| - 2..];
      assert forall i :: 0 <= i < |name| ==> name[i] == key[i];
    }
    if IsName(name) && key == name + "Id" {
      assert key[|key| - 2..] == "Id" && key[..|key| - 2] == name;
      assert forall i :: 0 <= i < |name| ==> key[i] == name[i];
    }
  }

  /** The key under which the companion of `key` is looked up, if there is one. */
  function CompanionKey(key: string): (r: Option<string>)
    ensures forall c :: NamesCompanion(key, c) <==> r == Some(c)
  {
    assert forall name :: IsName(name) && key == name + "Id" <==> IsForeignKey(key) && name == key[..|key| - 2] by {
      forall name ensures IsName(name) && key == name + "Id" <==> IsForeignKey(key) && name == key[..|key| - 2] {
        NameOfForeignKey(key, name);
      }
    }
    if key == "id" then Some("publicId")
    else if IsForeignKey(key) then Some(key[..|key| - 2] + "PublicId")
    else None
  }

  /** A value is replaced by the non-empty string under the companion's name, and by nothing else. */
  lemma CompanionIsTheNamedString(entries: seq<Entry>, key: string, s: string)
    requires forall j, k :: 0 <= j < k < |entries| ==> entries[j].key != entries[k].key
    ensures Companion(entries, key) == Some(s)
       <==> && s != ""
            && exists i :: 0 <= i < |entries| && NamesCompanion(key, entries[i].key) && entries[i].value == Str(s)
  {
    hide NamesCompanion, IsForeignKey, IsName;
    var companionKey := CompanionKey(key);
    if companionKey.Some? {
      LookupFindsTheEntry(entries, companionKey.value);
      forall i | 0 <= i < |entries| && entries[i].key == companionKey.value
        ensures Lookup(entries, companionKey.value) == Some(entries[i].value)
      {
        LookupIsTheValue(entries, i);
      }
    }
  }

  /** The normal form: nothing the rewrite returns has a companion key anywhere. */
  lemma {:induction false} RewrittenIsCompanionFree(v: Json)
    ensures CompanionFree(Rewritten(v))
    decreases v, 1
  {
    match v
    case Arr(items) => ItemsAreCompanionFree(items, |items|);
    case Obj(entries) => EntriesAreCompanionFree(entries, |entries|);
    case _ =>
  }

  lemma {:induction false} ItemsAreCompanionFree(items: seq<Json>, n: nat)
    requires n <= |items|
    ensures CompanionFree(Arr(RewrittenItems(items, n)))
    decreases items, 0, n
  {
    if n > 0 {
      ItemsAreCompanionFree(items, n - 1);
      RewrittenIsCompanionFree(items[n - 1]);
    }
  }

  lemma {:induction false} EntriesAreCompanionFree(entries: seq<Entry>, n: nat)
    requires n <= |entries|
    ensures CompanionFree(Obj(RewrittenEntries(entries, n)))
    decreases entries, 0, n
  {
    if n > 0 {
      EntriesAreCompanionFree(entries, n - 1);
      RewrittenIsCompanionFree(entries[n - 1].value);
    }
  }

  /** Exactly the companion-free trees are left as they are. */
  lemma UnchangedIffCompanionFree(v: Json)
    ensures Rewritten(v) == v <==> CompanionFree(v)
  {
    RewrittenIsCompanionFree(v);
    if CompanionFree(v) {
      CompanionFreeIsUnchanged(v);
    }
  }

  lemma {:induction false} CompanionFreeIsUnchanged(v: Json)
    requires CompanionFree(v)
    ensures Rewritten(v) == v
    decreases v, 1
  {
    match v
    case Arr(items) =>
      ItemsAreUnchanged(items, |items|);
      assert items[..|items|] == items;
    case Obj(entries) =>
      EntriesAreUnchanged(entries, |entries|);
      assert entries[..|entries|] == entries;
    case _ =>
  }

  lemma {:induction false} ItemsAreUnchanged(items: seq<Json>, n: nat)
    requires n <= |items| && CompanionFree(Arr(items))
    ensures RewrittenItems(items, n) == items[..n]
    decreases items, 0, n
  {
    if n > 0 {
      ItemsAreUnchanged(items, n - 1);
      CompanionFreeIsUnchanged(items[n - 1]);
    }
  }

  lemma {:induction false} LookupFindsAKey(entries: seq<Entry>, key: string)
    ensures Lookup(entries, key).Some? ==> exists i :: 0 <= i < |entries| && entries[i].key == key
  {
    if entries != [] && entries[0].key != key {
      LookupFindsAKey(entries[1..], key);
      if Lookup(entries[1..], key).Some? {
        var i :| 0 <= i < |entries[1..]| && entries[1..][i].key == key;
        assert entries[i + 1].key == key;
      }
    }
  }

  lemma NoCompanionToFind(entries: seq<Entry>, key: string)
    requires forall i :: 0 <= i < |entries| ==> !IsCompanionKey(entries[i].key)
    ensures Companion(entries, key) == None
  {
    LookupFindsAKey(entries, "publicId");
    if IsForeignKey(key) {
      var companionKey := key[..|key| - 2] + "PublicId";
      LookupFindsAKey(entries, companionKey);
      assert companionKey[|companionKey| - 8..] == "PublicId";
      assert IsCompanionKey(companionKey);
    }
  }

  lemma {:induction false} EntriesAreUnchanged(entries: seq<Entry>, n: nat)
    requires n <= |entries| && CompanionFree(Obj(entries))
    ensures RewrittenEntries(entries, n) == entries[..n]
    decreases entries, 0, n
  {
    hide Companion, IsCompanionKey;
    if n > 0 {
      EntriesAreUnchanged(entries, n - 1);
      CompanionFreeIsUnchanged(entries[n - 1].value);
      NoCompanionToFind(entries, entries[n - 1].key);
    }
  }

  /** A second rewrite changes nothing. */
  lemma RewriteIsIdempotent(v: Json)
    ensures Rewritten(Rewritten(v)) == Rewritten(v)
  {
    RewrittenIsCompanionFree(v);
    CompanionFreeIsUnchanged(Rewritten(v));
  }

  // ----- UUIDs

  /** No string value anywhere looks like a UUID. */
  predicate UuidFree(v: Json) {
    match v
    case Str(s) => !LooksLikeUuid(s)
    case Arr(items) => forall i :: 0 <= i < |items| ==> UuidFree(items[i])
    case Obj(entries) => forall i :: 0 <= i < |entries| ==> UuidFree(entries[i].value)
    case _ => true
  }

  /** None of the companion strings the rewrite puts in place looks like a UUID. */
  predicate SubstitutesAreUuidFree(v: Json)
    decreases v, 1
  {
    match v
    case Arr(items) => forall i :: 0 <= i < |items| ==> SubstitutesAreUuidFree(items[i])
    case Obj(entries) => EntrySubstitutesAreUuidFree(entries, |entries|)
    case _ => true
  }

  predicate EntrySubstitutesAreUuidFree(entries: seq<Entry>, n: nat)
    requires n <= |entries|
    decreases entries, 0, n
  {
    if n == 0 then true
    else
      var e := entries[n - 1];
      var companion := Companion(entries, e.key);
      && EntrySubstitutesAreUuidFree(entries, n - 1)
      && (IsCompanionKey(e.key)
          || if companion.Some? then !LooksLikeUuid(companion.value) else SubstitutesAreUuidFree(e.value))
  }

  /**
    What strict mode really guarantees: the rewritten body is free of UUIDs exactly when no
    leak was met and no companion put in place is itself a UUID, since those are not checked.
  */
  lemma {:induction false} CleanIffNothingLeaks(v: Json, path: seq<Segment>)
    ensures UuidFree(Rewritten(v)) <==> Leaks(v, path) == [] && SubstitutesAreUuidFree(v)
    decreases v, 1
  {
    match v
    case Arr(items) => CleanItems(items, |items|, path);
    case Obj(entries) => CleanEntries(entries, |entries|, path);
    case _ =>
  }

  lemma {:induction false} CleanItems(items: seq<Json>, n: nat, path: seq<Segment>)
    requires n <= |items|
    ensures UuidFree(Arr(RewrittenItems(items, n)))
            <==> ItemLeaks(items, n, path) == [] && forall i :: 0 <= i < n ==> SubstitutesAreUuidFree(items[i])
    decreases items, 0, n
  {
    hide Leaks, Rewritten, UuidFree, ItemLeaks, RewrittenItems, SubstitutesAreUuidFree;
    if n == 0 {
      NoItems(items, path);
      NothingIsUuidFree();
    } else {
      ItemStep(items, n - 1, path);
      CleanItems(items, n - 1, path);
      CleanIffNothingLeaks(items[n - 1], path + [Index(n - 1)]);
      OneMoreItem(RewrittenItems(items, n - 1), Rewritten(items[n - 1]));
    }
  }

  lemma NothingIsUuidFree()
    ensures UuidFree(Arr([])) && UuidFree(Obj([]))
  {}

  lemma OneMoreItem(init: seq<Json>, last: Json)
    ensures UuidFree(Arr(init + [last])) <==> UuidFree(Arr(init)) && UuidFree(last)
  {
    assert forall i :: 0 <= i < |init| ==> (init + [last])[i] == init[i];
    assert (init + [last])[|init|] == last;
  }

  lemma OneMoreEntry(init: seq<Entry>, last: Entry)
    ensures UuidFree(Obj(init + [last])) <==> UuidFree(Obj(init)) && UuidFree(last.value)
  {
    assert forall i :: 0 <= i < |init| ==> (init + [last])[i] == init[i];
    assert (init + [last])[|init|] == last;
  }

  lemma {:induction false} CleanEntries(entries: seq<Entry>, n: nat, path: seq<Segment>)
    requires n <= |entries|
    ensures UuidFree(Obj(RewrittenEntries(entries, n)))
            <==> EntryLeaks(entries, n, path) == [] && EntrySubstitutesAreUuidFree(entries, n)
    decreases entries, 0, n
  {
    hide Companion, IsCompanionKey, LooksLikeUuid, Leaks, Rewritten, UuidFree;
    if n == 0 {
      NothingIsUuidFree();
    } else {
      var e := entries[n - 1];
      CleanEntries(entries, n - 1, path);
      CleanIffNothingLeaks(e.value, path + [Key(e.key)]);
      var companion := Companion(entries, e.key);
      if companion.Some? {
        StringIsUuidFree(companion.value);
      }
      if !IsCompanionKey(e.key) {
        OneMoreEntry(RewrittenEntries(entries, n - 1),
                     Entry(e.key, if companion.Some? then Str(companion.value) else Rewritten(e.value)));
      }
    }
  }

  lemma StringIsUuidFree(s: string)
    ensures UuidFree(Str(s)) <==> !LooksLikeUuid(s)
  {}

  // ----- Where the leaks are

  /** The value that a path leads to. */
  function At(v: Json, path: seq<Segment>): Option<Json>
    decreases |path|
  {
    if path == [] then Some(v)
    else
      match path[0]
      case Index(i) => if v.Arr? && i < |v.items| then At(v.items[i], path[1..]) else None
      case Key(name) =>
        if !v.Obj? then None
        else
          match Lookup(v.entries, name)
          case None => None
          case Some(w) => At(w, path[1..])
  }

  /** Each leak names a UUID-shaped string of the body by the path that leads to it. */
  ghost predicate IsThere(v: Json, path: seq<Segment>, l: Leak) {
    path <= l.path && At(v, l.path[|path|..]) == Some(Str(l.value)) && LooksLikeUuid(l.value)
  }

  lemma OneStepDown(v: Json, path: seq<Segment>, segment: Segment, w: Json, l: Leak)
    requires At(v, [segment]) == Some(w) && IsThere(w, path + [segment], l)
    ensures IsThere(v, path, l)
    ensures |path| < |l.path| && l.path[|path|] == segment
  {
    hide LooksLikeUuid, Lookup;
    var below := l.path[|path|..];
    assert below[0] == segment && below[1..] == l.path[|path| + 1..];
    assert [segment][1..] == [];
  }

  lemma {:induction false} LeaksAreThere(v: Json, path: seq<Segment>)
    requires UniqueKeys(v)
    ensures forall l :: l in Leaks(v, path) ==> IsThere(v, path, l)
    decreases v, 1
  {
    hide LooksLikeUuid;
    match v
    case Arr(items) => ItemLeaksAreThere(items, |items|, path);
    case Obj(entries) => EntryLeaksAreThere(entries, |entries|, path);
    case _ =>
  }

  /** And those of an array come in the order of its elements. */
  lemma {:induction false} ItemLeaksAreThere(items: seq<Json>, n: nat, path: seq<Segment>)
    requires n <= |items| && UniqueKeys(Arr(items))
    ensures var leaks := ItemLeaks(items, n, path);
      && (forall l :: l in leaks ==> IsThere(Arr(items), path, l))
      && (forall l :: l in leaks ==> |path| < |l.path| && l.path[|path|].Index? && l.path[|path|].i < n)
      && forall a, b :: 0 <= a < b < |leaks| ==> leaks[a].path[|path|].i <= leaks[b].path[|path|].i
    decreases items, 0, n
  {
    hide LooksLikeUuid, At, IsThere, Leaks, ItemLeaks;
    if n == 0 {
      NoItems(items, path);
    } else {
      ItemLeaksAreThere(items, n - 1, path);
      ItemStep(items, n - 1, path);
      var segment := Index(n - 1);
      LeaksAreThere(items[n - 1], path + [segment]);
      ElementAt(items, n - 1);
      forall l | l in Leaks(items[n - 1], path + [segment])
        ensures IsThere(Arr(items), path, l) && |path| < |l.path| && l.path[|path|] == segment
      {
        OneStepDown(Arr(items), path, segment, items[n - 1], l);
      }
      var before, own := ItemLeaks(items, n - 1, path), Leaks(items[n - 1], path + [segment]);
      assert forall a :: 0 <= a < |before| ==> before[a] in before;
      assert forall a :: 0 <= a < |own| ==> own[a] in own;
    }
  }

  lemma ElementAt(items: seq<Json>, i: nat)
    requires i < |items|
    ensures At(Arr(items), [Index(i)]) == Some(items[i])
  {
    assert [Index(i)][1..] == [];
  }

  lemma ValueAt(entries: seq<Entry>, i: nat)
    requires i < |entries| && UniqueKeys(Obj(entries))
    ensures At(Obj(entries), [Key(entries[i].key)]) == Some(entries[i].value)
  {
    LookupIsTheValue(entries, i);
    assert [Key(entries[i].key)][1..] == [];
  }

  lemma {:induction false} EntryLeaksAreThere(entries: seq<Entry>, n: nat, path: seq<Segment>)
    requires n <= |entries| && UniqueKeys(Obj(entries))
    ensures var leaks := EntryLeaks(entries, n, path);
      forall l :: l in leaks ==> IsThere(Obj(entries), path, l)
    decreases entries, 0, n
  {
    hide LooksLikeUuid, At, IsThere, Leaks, EntryLeaks, Companion, IsCompanionKey;
    if n == 0 {
      NoEntries(entries, path);
    } else {
      var e := entries[n - 1];
      EntryLeaksAreThere(entries, n - 1, path);
      EntryStep(entries, n - 1, path);
      LeaksAreThere(e.value, path + [Key(e.key)]);
      ValueAt(entries, n - 1);
      forall l | l in Leaks(e.value, path + [Key(e.key)]) ensures IsThere(Obj(entries), path, l) {
        OneStepDown(Obj(entries), path, Key(e.key), e.value, l);
      }
    }
  }

  /** The leaks of an object come in the order of its entries. */
  ghost predicate LeaksOf(entries: seq<Entry>, path: seq<Segment>, l: Leak, i: nat) {
    i < |entries| && |path| < |l.path| && l.path[|path|] == Key(entries[i].key)
  }

  ghost predicate NotAfter(entries: seq<Entry>, path: seq<Segment>, l: Leak, m: Leak) {
    exists i: nat, j: nat :: i <= j && LeaksOf(entries, path, l, i) && LeaksOf(entries, path, m, j)
  }

  lemma {:induction false} EntryLeaksInOrder(entries: seq<Entry>, n: nat, path: seq<Segment>)
    requires n <= |entries| && UniqueKeys(Obj(entries))
    ensures var leaks := EntryLeaks(entries, n, path);
      && (forall l :: l in leaks ==> exists i: nat :: i < n && LeaksOf(entries, path, l, i))
      && forall a, b :: 0 <= a < b < |leaks| ==> NotAfter(entries, path, leaks[a], leaks[b])
  {
    hide LooksLikeUuid, At, IsThere, Leaks, EntryLeaks, Companion, IsCompanionKey, LeaksOf, NotAfter;
    if n == 0 {
      NoEntries(entries, path);
    } else {
      var e := entries[n - 1];
      EntryLeaksInOrder(entries, n - 1, path);
      EntryStep(entries, n - 1, path);
      var own := Leaks(e.value, path + [Key(e.key)]);
      forall l | l in own ensures LeaksOf(entries, path, l, n - 1) {
        LeaksAreThere(e.value, path + [Key(e.key)]);
        LeadsBelow(entries, n - 1, path, l);
      }
      var before := EntryLeaks(entries, n - 1, path);
      forall l, m | (l in before || l in own) && m in own ensures NotAfter(entries, path, l, m) {
        var i: nat :| i < n && LeaksOf(entries, path, l, i);
        LastIsNotAfter(entries, path, l, m, i, n - 1);
      }
      assert forall a :: 0 <= a < |before| ==> before[a] in before;
      assert forall a :: 0 <= a < |own| ==> own[a] in own;
    }
  }

  lemma LeadsBelow(entries: seq<Entry>, i: nat, path: seq<Segment>, l: Leak)
    requires i < |entries| && IsThere(entries[i].value, path + [Key(entries[i].key)], l)
    ensures LeaksOf(entries, path, l, i)
  {}

  lemma LastIsNotAfter(entries: seq<Entry>, path: seq<Segment>, l: Leak, m: Leak, i: nat, j: nat)
    requires i <= j && LeaksOf(entries, path, l, i) && LeaksOf(entries, path, m, j)
    ensures NotAfter(entries, path, l, m)
  {}

  const A_UUID := "00000000-0000-0000-0000-000000000000"

  lemma AUuidLooksLikeOne()
    ensures LooksLikeUuid(A_UUID)
  {}

  /** A body the strict interceptor lets pass with a UUID in it: the companion of its `id` is one. */
  const MISSED := [Entry("id", Str("1")), Entry("publicId", Str(A_UUID))]

  lemma StrictModeMayMiss()
    ensures UniqueKeys(Obj(MISSED)) && Leaks(Obj(MISSED), []) == []
    ensures Rewritten(Obj(MISSED)) == Obj([Entry("id", Str(A_UUID))])
    ensures !UuidFree(Rewritten(Obj(MISSED)))
  {
    MissedCompanion();
    AUuidLooksLikeOne();
    hide Companion, IsCompanionKey, A_UUID, LooksLikeUuid;
    NoEntries(MISSED, []);
    EntryStep(MISSED, 0, []);
    EntryStep(MISSED, 1, []);
    var clean := Entry("id", Str(A_UUID));
    assert RewrittenEntries(MISSED, 1) == [] + [clean];
    assert RewrittenEntries(MISSED, 2) == [clean] + [];
    assert EntryLeaks(MISSED, 1, []) == [];
    assert EntryLeaks(MISSED, 2, []) == [];
    OneMoreEntry([], clean);
    StringIsUuidFree(A_UUID);
    assert [] + [clean] == [clean];
  }

  lemma MissedCompanion()
    ensures !IsCompanionKey("id") && IsCompanionKey("publicId")
    ensures Companion(MISSED, "id") == Some(A_UUID)
  {
    hide A_UUID;
    AUuidLooksLikeOne();
    assert |"id"| != |"publicId"| && |A_UUID| != |""|;
    assert MISSED[1..] == [Entry("publicId", Str(A_UUID))];
    assert Lookup(MISSED[1..], "publicId") == Some(Str(A_UUID));
  }

  /** Every non-empty companion string in the body, at any depth, is an identifier of valid shape. */
  predicate CompanionsAreValid(v: Json) {
    match v
    case Arr(items) => forall i :: 0 <= i < |items| ==> CompanionsAreValid(items[i])
    case Obj(entries) =>
      forall i :: 0 <= i < |entries| ==>
        && CompanionsAreValid(entries[i].value)
        && (IsCompanionKey(entries[i].key) && entries[i].value.Str? && entries[i].value.s != ""
            ==> IsValidShape(entries[i].value.s, None))
    case _ => true
  }

  lemma {:induction false} LookupFindsTheEntry(entries: seq<Entry>, key: string)
    ensures Lookup(entries, key).Some? ==> Entry(key, Lookup(entries, key).value) in entries
  {
    if entries != [] && entries[0].key != key {
      LookupFindsTheEntry(entries[1..], key);
    }
  }

  lemma CompanionIsAnEntry(entries: seq<Entry>, key: string)
    ensures Companion(entries, key).Some? ==>
      exists i :: 0 <= i < |entries| && IsCompanionKey(entries[i].key)
                  && entries[i].value == Str(Companion(entries, key).value) && Companion(entries, key).value != ""
  {
    var companionKey :=
      if key == "id" then "publicId" else if IsForeignKey(key) then key[..|key| - 2] + "PublicId" else "";
    LookupFindsTheEntry(entries, companionKey);
    if Companion(entries, key).Some? {
      assert key != "id" ==> companionKey[|companionKey| - 8..] == "PublicId";
      var e := Entry(companionKey, Lookup(entries, companionKey).value);
      var i :| 0 <= i < |entries| && entries[i] == e;
    }
  }

  lemma {:induction false} ValidEntriesAreNoUuids(entries: seq<Entry>, n: nat)
    requires n <= |entries| && CompanionsAreValid(Obj(entries))
    ensures EntrySubstitutesAreUuidFree(entries, n)
    decreases entries, 0, n
  {
    hide Companion, IsCompanionKey, IsValidShape, LooksLikeUuid;
    if n > 0 {
      var e := entries[n - 1];
      ValidEntriesAreNoUuids(entries, n - 1);
      ValidCompanionsAreNoUuids(e.value);
      CompanionIsAnEntry(entries, e.key);
      if Companion(entries, e.key).Some? {
        ValidShapeIsNoUuid(Companion(entries, e.key).value, None);
      }
    }
  }

  lemma {:induction false} ValidCompanionsAreNoUuids(v: Json)
    requires CompanionsAreValid(v)
    ensures SubstitutesAreUuidFree(v)
    decreases v, 1
  {
    match v
    case Arr(items) =>
      forall i | 0 <= i < |items| ensures SubstitutesAreUuidFree(items[i]) { ValidCompanionsAreNoUuids(items[i]); }
    case Obj(entries) =>
      ValidEntriesAreNoUuids(entries, |entries|);
    case _ =>
  }

  /**
    Strict mode is sound for bodies whose companions are valid identifiers: a rewrite that
    meets no leak, and so does not throw, returns a body without a UUID-shaped string.
  */
  lemma StrictRewriteIsUuidFree(v: Json)
    requires CompanionsAreValid(v) && Leaks(v, []) == []
    ensures UuidFree(Rewritten(v))
  {
    ValidCompanionsAreNoUuids(v);
    CleanIffNothingLeaks(v, []);
  }

  /** Without that assumption a second strict pass closes the gap: it meets a leak exactly when a UUID is left. */
  lemma SecondPassCatchesTheRest(v: Json)
    ensures Leaks(Rewritten(v), []) == [] <==> UuidFree(Rewritten(v))
  {
    RewriteIsIdempotent(v);
    RewrittenIsCompanionFree(v);
    CompanionFreeHasNoSubstitutes(Rewritten(v));
    CleanIffNothingLeaks(Rewritten(v), []);
  }

  lemma {:induction false} CompanionFreeHasNoSubstitutes(v: Json)
    requires CompanionFree(v)
    ensures SubstitutesAreUuidFree(v)
    decreases v, 1
  {
    match v
    case Arr(items) =>
      forall i | 0 <= i < |items| ensures SubstitutesAreUuidFree(items[i]) { CompanionFreeHasNoSubstitutes(items[i]); }
    case Obj(entries) =>
      EntriesHaveNoSubstitutes(entries, |entries|);
    case _ =>
  }

  lemma {:induction false} EntriesHaveNoSubstitutes(entries: seq<Entry>, n: nat)
    requires n <= |entries| && CompanionFree(Obj(entries))
    ensures EntrySubstitutesAreUuidFree(entries, n)
    decreases entries, 0, n
  {
    if n > 0 {
      EntriesHaveNoSubstitutes(entries, n - 1);
      NoCompanionToFind(entries, entries[n - 1].key);
      CompanionFreeHasNoSubstitutes(entries[n - 1].value);
    }
  }
}
