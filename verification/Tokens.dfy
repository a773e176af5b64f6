/** The hub's token store: a table in memory written through to one file. */
module Tokens {
  import opened Wrappers
  import opened Text

  datatype Kind = Admin | NodeKind | User | Unknown(name: string)

  datatype Token = Token(
    id: string, hash: string, kind: Kind, title: string, scope: seq<string>,
    createdAt: int, createdBy: string, revokedAt: Option<int>)
  {
    predicate Active() { revokedAt.None? }
  }

  type TokenMap = map<string, Token>

  predicate KeysAgree(m: TokenMap) {
    forall id :: id in m ==> m[id].id == id
  }

  // ---- the file --------------------------------------------------------------------------

  /** load(): later records of an id replace earlier ones. */
  function Loaded(file: seq<Token>): TokenMap {
    if file == [] then map[] else Loaded(file[..|file| - 1])[file[|file| - 1].id := file[|file| - 1]]
  }

  ghost predicate DistinctIds(ts: seq<Token>) {
    forall i, j :: 0 <= i < j < |ts| ==> ts[i].id != ts[j].id
  }

  /** The records of a table, each once, oldest first. */
  ghost predicate IsImage(ts: seq<Token>, m: TokenMap) {
    DistinctIds(ts) && (forall t :: t in ts <==> t.id in m && m[t.id] == t) &&
    forall i, j :: 0 <= i < j < |ts| ==> ts[i].createdAt <= ts[j].createdAt
  }

  lemma {:induction false} LoadedHas(ts: seq<Token>, i: nat)
    requires DistinctIds(ts) && i < |ts|
    ensures ts[i].id in Loaded(ts) && Loaded(ts)[ts[i].id] == ts[i]
  {
    if i < |ts| - 1 {
      LoadedHas(ts[..|ts| - 1], i);
    }
  }

  lemma {:induction false} LoadedOnly(ts: seq<Token>, id: string)
    requires id in Loaded(ts)
    ensures Loaded(ts)[id] in ts && Loaded(ts)[id].id == id
  {
    if ts[|ts| - 1].id != id {
      LoadedOnly(ts[..|ts| - 1], id);
    }
  }

  /** What a save wrote, a load reads back. */
  lemma LoadSave(ts: seq<Token>, m: TokenMap)
    requires IsImage(ts, m) && KeysAgree(m)
    ensures Loaded(ts) == m
  {
    forall id ensures id in Loaded(ts) <==> id in m {
      if id in Loaded(ts) {
        LoadedOnly(ts, id);
      }
      if id in m {
        var i :| 0 <= i < |ts| && ts[i] == m[id];
        LoadedHas(ts, i);
      }
    }
    forall id | id in m ensures Loaded(ts)[id] == m[id] {
      LoadedOnly(ts, id);
    }
  }

  /** sort.Slice by CreatedAt, as insertion. */
  function InsertByTime(ts: seq<Token>, t: Token): seq<Token> {
    if ts == [] || t.createdAt < ts[0].createdAt then [t] + ts else [ts[0]] + InsertByTime(ts[1..], t)
  }

  lemma {:induction false} InsertImage(ts: seq<Token>, m: TokenMap, t: Token)
    requires IsImage(ts, m) && t.id !in m
    ensures IsImage(InsertByTime(ts, t), m[t.id := t])
  {
    InsertElements(ts, t);
    InsertOrdered(ts, t);
  }

  lemma {:induction false} InsertElements(ts: seq<Token>, t: Token)
    requires DistinctIds(ts) && forall x :: x in ts ==> x.id != t.id
    ensures DistinctIds(InsertByTime(ts, t)) && forall x :: x in InsertByTime(ts, t) <==> x in ts || x == t
  {
    if ts != [] && t.createdAt >= ts[0].createdAt {
      InsertElements(ts[1..], t);
      assert forall x :: x in ts <==> x == ts[0] || x in ts[1..];
      var rest := InsertByTime(ts[1..], t);
      forall j | 0 <= j < |rest| ensures rest[j].id != ts[0].id {
        assert rest[j] in rest;
        if rest[j] in ts[1..] {
          var k :| 0 <= k < |ts[1..]| && ts[1..][k] == rest[j];
          assert ts[k + 1].id != ts[0].id;
        } else {
          assert ts[0] in ts;
        }
      }
    } else {
      assert forall j :: 0 <= j < |ts| ==> ts[j] in ts;
    }
  }

  lemma {:induction false} InsertOrdered(ts: seq<Token>, t: Token)
    requires forall i, j :: 0 <= i < j < |ts| ==> ts[i].createdAt <= ts[j].createdAt
    ensures var r := InsertByTime(ts, t);
      (forall i, j :: 0 <= i < j < |r| ==> r[i].createdAt <= r[j].createdAt) &&
      (forall x :: x in r ==> x in ts || x == t)
  {
    if ts != [] && t.createdAt >= ts[0].createdAt {
      InsertOrdered(ts[1..], t);
      var rest := InsertByTime(ts[1..], t);
      forall j | 0 <= j < |rest| ensures ts[0].createdAt <= rest[j].createdAt {
        assert rest[j] in rest;
        if rest[j] in ts[1..] {
          var k :| 0 <= k < |ts[1..]| && ts[1..][k] == rest[j];
          assert ts[0].createdAt <= ts[k + 1].createdAt;
        }
      }
      assert forall x :: x in ts[1..] ==> x in ts;
    }
  }

  // ---- operations on values --------------------------------------------------------------

  /** Memory, file content (None: no file yet), whether there is a file at all, and every id
      ever handed out. */
  datatype State = State(mem: TokenMap, disk: Option<TokenMap>, persistent: bool, used: set<string>)

  /** One call; `saves` says whether writing and renaming the file works this time. */
  datatype Op =
    | EnsureAdmin(key: string, hash: string, id: string, now: int, saves: bool)
    | Mint(kind: Kind, title: string, minter: string, scope: seq<string>, hash: string, id: string, now: int, saves: bool)
    | Revoke(id: string, now: int, saves: bool)
    | Restart

  function Save(s: State, saves: bool): (State, bool) {
    if !s.persistent then (s, true)
    else if saves then (s.(disk := Some(s.mem)), true)
    else (s, false)
  }

  function Put(s: State, t: Token): State {
    s.(mem := s.mem[t.id := t], used := s.used + {t.id})
  }

  predicate HasAdmin(m: TokenMap, hash: string) {
    exists id :: id in m && m[id].hash == hash && m[id].kind.Admin? && m[id].Active()
  }

  /** The new state and whether the call returned no error. */
  function Step(s: State, op: Op): (State, bool) {
    match op
    case EnsureAdmin(key, hash, id, now, saves) =>
      if Trim(key) == "" || HasAdmin(s.mem, hash) then (s, true)
      else Save(Put(s, Token(id, hash, Admin, "admin (env)", [], now, "", None)), saves)
    case Mint(kind, title, minter, scope, hash, id, now, saves) =>
      if kind.Unknown? then (s, false) else
      Save(Put(s, Token(id, hash, kind, title, scope, now, minter, None)), saves)
    case Revoke(id, now, saves) =>
      if id !in s.mem then (s, false)
      else Save(s.(mem := s.mem[id := s.mem[id].(revokedAt := Some(now))]), saves)
    case Restart =>
      (s.(mem := if s.persistent && s.disk.Some? then s.disk.value else map[]), true)
  }

  /** IDs come from a random source: a new one was never used before. */
  predicate FreshId(s: State, op: Op) {
    match op
    case EnsureAdmin(_, _, id, _, _) => id !in s.used
    case Mint(_, _, _, _, _, id, _, _) => id !in s.used
    case _ => true
  }

  ghost predicate FreshRun(s: State, ops: seq<Op>)
    decreases ops
  {
    ops == [] || (FreshId(s, ops[0]) && FreshRun(Step(s, ops[0]).0, ops[1..]))
  }

  function Run(s: State, ops: seq<Op>): State
    decreases ops
  {
    if ops == [] then s else Run(Step(s, ops[0]).0, ops[1..])
  }

  ghost predicate Valid(s: State) {
    s.mem.Keys <= s.used && (s.disk.Some? ==> s.disk.value.Keys <= s.used) && (!s.persistent ==> s.disk.None?)
  }

  /** The id is neither active now nor after any reload. */
  ghost predicate Dead(s: State, id: string) {
    id in s.used && (id in s.mem ==> !s.mem[id].Active()) &&
    (s.disk.Some? && id in s.disk.value ==> !s.disk.value[id].Active())
  }

  lemma {:induction false} DeadForever(s: State, id: string, ops: seq<Op>)
    requires Valid(s) && Dead(s, id) && FreshRun(s, ops)
    ensures Valid(Run(s, ops)) && Dead(Run(s, ops), id)
    decreases ops
  {
    if ops != [] {
      DeadForever(Step(s, ops[0]).0, id, ops[1..]);
    }
  }

  /** A token whose Revoke returned nil is never active again, whatever is called afterwards,
      saves failing or not, across any number of restarts. */
  lemma RevokedForever(s: State, id: string, now: int, saves: bool, ops: seq<Op>)
    requires Valid(s) && Step(s, Revoke(id, now, saves)).1
    requires FreshRun(Step(s, Revoke(id, now, saves)).0, ops)
    ensures var t := Run(Step(s, Revoke(id, now, saves)).0, ops);
      (id in t.mem ==> !t.mem[id].Active()) && !Verifies(t, id)
  {
    DeadForever(Step(s, Revoke(id, now, saves)).0, id, ops);
  }

  /** The call changed the table and its save went through. */
  predicate Wrote(s: State, op: Op) {
    s.persistent &&
    match op
    case EnsureAdmin(key, hash, _, _, saves) => saves && Trim(key) != "" && !HasAdmin(s.mem, hash)
    case Mint(kind, _, _, _, _, _, _, saves) => saves && !kind.Unknown?
    case Revoke(id, _, saves) => saves && id in s.mem
    case Restart => false
  }

  /** The file always equals memory as of the last successful save: after any run whose last
      write is call k, it holds the table that call left, whatever failed or crashed since. */
  lemma {:induction false} FileIsLastSave(s: State, ops: seq<Op>, k: nat)
    requires k < |ops| && Wrote(Run(s, ops[..k]), ops[k])
    requires forall j :: k < j < |ops| ==> !Wrote(Run(s, ops[..j]), ops[j])
    ensures Run(s, ops).disk == Some(Run(s, ops[..k + 1]).mem)
  {
    hide Run, Wrote;
    var n := |ops| - 1;
    var init := ops[..n];
    assert ops == init + [ops[n]];
    RunSnoc(s, init, ops[n]);
    WritesOnly(Run(s, init), ops[n]);
    if k == n {
      assert ops[..k + 1] == ops;
    } else {
      assert forall j :: 0 <= j <= n ==> init[..j] == ops[..j];
      FileIsLastSave(s, init, k);
    }
  }

  lemma WritesOnly(s: State, op: Op)
    ensures Step(s, op).0.disk == if Wrote(s, op) then Some(Step(s, op).0.mem) else s.disk
  {
    hide Trim, HasAdmin;
  }

  lemma {:induction false} RunSnoc(s: State, ops: seq<Op>, op: Op)
    ensures Run(s, ops + [op]) == Step(Run(s, ops), op).0
    decreases ops
  {
    hide Step;
    if ops == [] {
      assert [op][1..] == [];
    } else {
      assert (ops + [op])[1..] == ops[1..] + [op];
      RunSnoc(Step(s, ops[0]).0, ops[1..], op);
    }
  }

  /** Some plaintext would be answered with this token. */
  ghost predicate Verifies(s: State, id: string) {
    id in s.mem && s.mem[id].Active()
  }

  /** Durability the other way: a revocation that could not be saved returns an error, and the
      token is back after a restart. */
  lemma UnsavedRevokeReturns(s: State, id: string, now: int)
    requires Valid(s) && s.persistent && s.disk.Some? && id in s.mem
    ensures !Step(s, Revoke(id, now, false)).1 && !Verifies(Step(s, Revoke(id, now, false)).0, id)
    ensures Verifies(Run(s, [Revoke(id, now, false), Restart]), id) <==>
      id in s.disk.value && s.disk.value[id].Active()
  {
    var t := Step(s, Revoke(id, now, false)).0;
    assert [Revoke(id, now, false), Restart][1..] == [Restart];
    assert [Restart][1..] == [];
    assert Run(t, [Restart]) == Step(t, Restart).0;
  }

  // ---- secrets ---------------------------------------------------------------------------

  predicate Accepts(m: TokenMap, hash: string) {
    exists id :: id in m && m[id].hash == hash && m[id].Active()
  }

  predicate Issues(op: Op, hash: string) {
    (op.EnsureAdmin? || op.Mint?) && op.hash == hash
  }

  /** A secret that neither memory nor file accepts stays refused until a call issues it. */
  lemma {:induction false} RefusedUntilIssued(s: State, hash: string, ops: seq<Op>)
    requires !Accepts(s.mem, hash) && (s.disk.Some? ==> !Accepts(s.disk.value, hash))
    requires forall i :: 0 <= i < |ops| ==> !Issues(ops[i], hash)
    ensures !Accepts(Run(s, ops).mem, hash)
    decreases ops
  {
    if ops != [] {
      var t := Step(s, ops[0]).0;
      assert !Issues(ops[0], hash);
      RefusedUntilIssued(t, hash, ops[1..]);
    }
  }

  /** EnsureAdmin is idempotent: once it has succeeded, the same key changes nothing. */
  lemma EnsureAdminOnce(s: State, key: string, hash: string, id: string, now: int, saves: bool,
                        id': string, now': int, saves': bool)
    requires Trim(key) != ""
    ensures var t := Step(s, EnsureAdmin(key, hash, id, now, saves)).0;
      HasAdmin(t.mem, hash) && Step(t, EnsureAdmin(key, hash, id', now', saves')) == (t, true)
  {
    var t := Step(s, EnsureAdmin(key, hash, id, now, saves)).0;
    if !HasAdmin(s.mem, hash) {
      assert id in t.mem && t.mem[id].hash == hash && t.mem[id].kind.Admin? && t.mem[id].Active();
    }
  }

  // ---- the store -------------------------------------------------------------------------

  class Store {
    const persistent: bool
    var tokens: TokenMap
    var file: Option<seq<Token>>
    ghost var used: set<string>

    ghost predicate Valid()
      reads this
    {
      KeysAgree(tokens)
    }

    /** The store as the value the laws above speak of. */
    ghost function View(): State
      reads this
    {
      State(tokens, if file.Some? then Some(Loaded(file.value)) else None, persistent, used)
    }

    constructor (persistent: bool)
      ensures Valid() && this.persistent == persistent && View() == State(map[], None, persistent, {})
    {
      this.persistent, tokens, file, used := persistent, map[], None, {};
    }

    /** saveLocked: the temporary file replaces the old one in one step or not at all. */
    method SaveLocked(works: bool) returns (ok: bool)
      requires Valid()
      modifies this`file
      ensures (View(), ok) == Save(old(View()), works)
      ensures ok && persistent ==> file.Some? && IsImage(file.value, tokens)
      ensures !ok || !persistent ==> file == old(file)
    {
      if !persistent {
        return true;
      }
      var toks: seq<Token>, left := [], tokens.Keys;
      ghost var done: TokenMap := map[];
      while left != {}
        invariant left <= tokens.Keys && done.Keys == tokens.Keys - left
        invariant forall id :: id in done ==> done[id] == tokens[id]
        invariant IsImage(toks, done) && file == old(file)
        decreases left
      {
        var id :| id in left;
        InsertImage(toks, done, tokens[id]);
        toks := InsertByTime(toks, tokens[id]);
        done := done[id := tokens[id]];
        left := left - {id};
      }
      assert done == tokens;
      LoadSave(toks, tokens);
      if !works {
        return false;
      }
      file := Some(toks);
      ok := true;
    }

    method EnsureAdmin(key: string, hash: string, id: string, now: int, works: bool) returns (created: bool, ok: bool)
      requires Valid()
      modifies this
      ensures Valid() && (View(), ok) == Step(old(View()), Op.EnsureAdmin(key, hash, id, now, works))
      ensures created <==>
        (Trim(key) != "" && !exists x ::
          x in old(tokens) && old(tokens)[x].hash == hash && old(tokens)[x].kind.Admin? && old(tokens)[x].revokedAt.None?)
      ensures tokens == if created then old(tokens)[id := Token(id, hash, Admin, "admin (env)", [], now, "", None)] else old(tokens)
      ensures created && ok && persistent ==> file.Some? && IsImage(file.value, tokens)
      ensures !created ==> ok
      ensures !created || !ok ==> file == old(file)
    {
      hide Trim;
      if Trim(key) == "" {
        return false, true;
      }
      var left := tokens.Keys;
      while left != {}
        invariant left <= tokens.Keys
        invariant forall x :: x in tokens && x !in left ==> !(tokens[x].hash == hash && tokens[x].kind.Admin? && tokens[x].Active())
        decreases left
      {
        var x :| x in left;
        var t := tokens[x];
        if t.hash == hash && t.kind.Admin? && t.Active() {
          return false, true;
        }
        left := left - {x};
      }
      tokens := tokens[id := Token(id, hash, Admin, "admin (env)", [], now, "", None)];
      used := used + {id};
      ok := SaveLocked(works);
      created := true;
    }

    method Mint(kind: Kind, title: string, minter: string, scope: seq<string>, hash: string, id: string, now: int, works: bool)
      returns (t: Option<Token>, ok: bool)
      requires Valid()
      modifies this
      ensures Valid() && (View(), ok) == Step(old(View()), Op.Mint(kind, title, minter, scope, hash, id, now, works))
      ensures t.Some? <==> kind.Admin? || kind.NodeKind? || kind.User?
      ensures t.Some? ==> t.value == Token(id, hash, kind, title, scope, now, minter, None)
      ensures tokens == if t.Some? then old(tokens)[id := t.value] else old(tokens)
      ensures t.Some? && ok && persistent ==> file.Some? && IsImage(file.value, tokens)
      ensures t.None? ==> !ok
      ensures !ok ==> file == old(file)
    {
      if kind.Unknown? {
        return None, false;
      }
      t := Some(Token(id, hash, kind, title, scope, now, minter, None));
      tokens := tokens[id := t.value];
      used := used + {id};
      ok := SaveLocked(works);
    }

    /** Verify succeeds exactly when some active token has the hash, and returns one. */
    method Verify(plaintext: string, hash: string -> string) returns (r: Option<Token>)
      requires Valid()
      ensures r.Some? <==>
        (plaintext != "" && exists x :: x in tokens && tokens[x].hash == hash(plaintext) && tokens[x].revokedAt.None?)
      ensures r.Some? <==> plaintext != "" && Accepts(tokens, hash(plaintext))
      ensures r.Some? ==> r.value.revokedAt.None?
      ensures r.Some? ==> r.value.id in tokens && tokens[r.value.id] == r.value
      ensures r.Some? ==> r.value.hash == hash(plaintext) && Verifies(View(), r.value.id)
    {
      if plaintext == "" {
        return None;
      }
      var h := hash(plaintext);
      var left := tokens.Keys;
      while left != {}
        invariant left <= tokens.Keys
        invariant forall x :: x in tokens && x !in left ==> !(tokens[x].hash == h && tokens[x].Active())
        decreases left
      {
        var x :| x in left;
        if tokens[x].hash == h && tokens[x].Active() {
          return Some(tokens[x]);
        }
        left := left - {x};
      }
      return None;
    }

    method Revoke(id: string, now: int, works: bool) returns (ok: bool)
      requires Valid()
      modifies this
      ensures Valid() && (View(), ok) == Step(old(View()), Op.Revoke(id, now, works))
      ensures tokens == if id in old(tokens) then old(tokens)[id := old(tokens)[id].(revokedAt := Some(now))] else old(tokens)
      ensures ok ==> id in tokens
      ensures ok && persistent ==> file.Some? && IsImage(file.value, tokens)
      ensures !ok ==> file == old(file)
    {
      if id !in tokens {
        return false;
      }
      tokens := tokens[id := tokens[id].(revokedAt := Some(now))];
      ok := SaveLocked(works);
    }

    /** A crash and NewStore on the same path. */
    method Restart()
      requires Valid()
      modifies this`tokens
      ensures Valid() && View() == Step(old(View()), Op.Restart).0
    {
      tokens := map[];
      if !persistent || file.None? {
        return;
      }
      var toks := file.value;
      for i := 0 to |toks|
        invariant tokens == Loaded(toks[..i]) && KeysAgree(tokens) && file == old(file)
      {
        assert toks[..i + 1][..i] == toks[..i];
        tokens := tokens[toks[i].id := toks[i]];
      }
      assert toks[..|toks|] == toks;
    }
  }
}
