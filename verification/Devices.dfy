/** Device keys: registration, verification, rotation and revocation over the
    device_keys table. */
module Devices {
  import opened Options

  /** A stored password hash. Hashing is idealised: a hash of one secret matches that secret and no other. */
  datatype Hash = HashOf(secret: string, salt: nat)
  {
    predicate Matches(s: string) { s == secret }
  }

  datatype DeviceKey = DeviceKey(id: string, deviceID: string, appID: string, keyHash: Hash, status: string,
                                 registeredAt: int, lastSeenAt: Option<int>)

  /** device_key_id -> row. */
  type Table = map<string, DeviceKey>

  const ACTIVE: string := "active"
  const REVOKED: string := "revoked"

  /** What a call meets outside the service: entropy and hashing, the two store calls, the clock. */
  datatype Env = Env(hashOk: bool, salt: nat, readOk: bool, writeOk: bool, now: int)

  datatype Outcome = Done | NotFound | Revoked | InvalidSecret | Failed

  class AuthStore {
    var table: Table

    constructor ()
      ensures table == map[]
    {
      table := map[];
    }

    /** The key id is the primary key. */
    method CreateDeviceKey(dk: DeviceKey, env: Env) returns (ok: bool)
      modifies this
      ensures ok <==> env.writeOk && dk.id !in old(table)
      ensures table == if ok then old(table)[dk.id := dk] else old(table)
    {
      ok := env.writeOk && dk.id !in table;
      if ok {
        table := table[dk.id := dk];
      }
    }

    method GetDeviceKey(id: string, env: Env) returns (dk: Option<DeviceKey>)
      ensures dk == if env.readOk && id in table then Some(table[id]) else None
    {
      if env.readOk && id in table {
        return Some(table[id]);
      }
      return None;
    }

    /** Writes hash, status and last-seen time of the row with this id, if there is one. */
    method UpdateDeviceKey(dk: DeviceKey, env: Env) returns (ok: bool)
      modifies this
      ensures ok == env.writeOk
      ensures table == if ok then Updated(old(table), dk, env.now) else old(table)
    {
      ok := env.writeOk;
      if ok && dk.id in table {
        table := table[dk.id := table[dk.id].(keyHash := dk.keyHash, status := dk.status, lastSeenAt := Some(env.now))];
      }
    }
  }

  function Updated(t: Table, dk: DeviceKey, now: int): Table
  {
    if dk.id in t
    then t[dk.id := t[dk.id].(keyHash := dk.keyHash, status := dk.status, lastSeenAt := Some(now))]
    else t
  }

  datatype Call =
    | Register(id: string, appID: string, deviceID: string, secret: string, env: Env)
    | Verify(id: string, secret: string, env: Env)
    | RotateKey(id: string, secret: string, newSecret: string, env: Env)
    | Revoke(id: string, env: Env)

  /** What a verifying call answers before it does anything else. */
  function Check(t: Table, id: string, secret: string, env: Env): Outcome
  {
    if !env.readOk || id !in t then NotFound
    else if t[id].status != ACTIVE then Outcome.Revoked
    else if !t[id].keyHash.Matches(secret) then InvalidSecret
    else Done
  }

  function Answer(t: Table, c: Call): Outcome
  {
    match c
    case Register(id, _, _, _, env) => if env.hashOk && env.writeOk && id !in t then Done else Failed
    case Verify(id, secret, env) => Check(t, id, secret, env)
    case RotateKey(id, secret, _, env) =>
      var o := Check(t, id, secret, env);
      if o == Done && !(env.hashOk && env.writeOk) then Failed else o
    case Revoke(id, env) =>
      if !env.readOk || id !in t then NotFound else if env.writeOk then Done else Failed
  }

  function Effect(t: Table, c: Call): Table
  {
    if Answer(t, c) != Done then t
    else
      match c
      case Register(id, app, dev, secret, env) =>
        t[id := DeviceKey(id, dev, app, HashOf(secret, env.salt), ACTIVE, env.now, None)]
      case Verify(_, _, _) => t
      case RotateKey(id, _, newSecret, env) =>
        t[id := t[id].(keyHash := HashOf(newSecret, env.salt), lastSeenAt := Some(env.now))]
      case Revoke(id, env) => t[id := t[id].(status := REVOKED, lastSeenAt := Some(env.now))]
  }

  ghost predicate IdsMatch(t: Table)
  {
    forall id :: id in t ==> t[id].id == id
  }

  class DeviceService {
    const store: AuthStore

    constructor (store: AuthStore)
      ensures this.store == store
    {
      this.store := store;
    }

    /** id and secret are the fresh random values the call draws. */
    method Register(appID: string, deviceID: string, id: string, secret: string, env: Env) returns (o: Outcome)
      modifies store
      ensures var c := Call.Register(id, appID, deviceID, secret, env);
              o == Answer(old(store.table), c) && store.table == Effect(old(store.table), c)
    {
      if !env.hashOk {
        return Failed;
      }
      var dk := DeviceKey(id, deviceID, appID, HashOf(secret, env.salt), ACTIVE, env.now, None);
      var ok := store.CreateDeviceKey(dk, env);
      return if ok then Done else Failed;
    }

    method Verify(id: string, secret: string, env: Env) returns (o: Outcome)
      ensures o == Answer(store.table, Call.Verify(id, secret, env))
    {
      var dk := store.GetDeviceKey(id, env);
      if dk.None? {
        return NotFound;
      }
      if dk.value.status != ACTIVE {
        return Outcome.Revoked;
      }
      if !dk.value.keyHash.Matches(secret) {
        return InvalidSecret;
      }
      return Done;
    }

    method RotateKey(id: string, oldSecret: string, newSecret: string, env: Env) returns (o: Outcome)
      requires IdsMatch(store.table)
      modifies store
      ensures var c := Call.RotateKey(id, oldSecret, newSecret, env);
              o == Answer(old(store.table), c) && store.table == Effect(old(store.table), c)
    {
      var dk := store.GetDeviceKey(id, env);
      if dk.None? {
        return NotFound;
      }
      if dk.value.status != ACTIVE {
        return Outcome.Revoked;
      }
      if !dk.value.keyHash.Matches(oldSecret) {
        return InvalidSecret;
      }
      if !env.hashOk {
        return Failed;
      }
      var ok := store.UpdateDeviceKey(dk.value.(keyHash := HashOf(newSecret, env.salt)), env);
      return if ok then Done else Failed;
    }

    method Revoke(id: string, env: Env) returns (o: Outcome)
      requires IdsMatch(store.table)
      modifies store
      ensures var c := Call.Revoke(id, env);
              o == Answer(old(store.table), c) && store.table == Effect(old(store.table), c)
    {
      var dk := store.GetDeviceKey(id, env);
      if dk.None? {
        return NotFound;
      }
      var ok := store.UpdateDeviceKey(dk.value.(status := REVOKED), env);
      return if ok then Done else Failed;
    }
  }

  // ----- Whole runs -----

  function After(calls: seq<Call>): Table
  {
    if calls == [] then map[] else Effect(After(calls[..|calls| - 1]), calls[|calls| - 1])
  }

  /** Call i of the run succeeded. */
  predicate Succeeded(calls: seq<Call>, i: nat)
    requires i < |calls|
  {
    Answer(After(calls[..i]), calls[i]) == Done
  }

  /** The secret set by the latest successful registration or rotation of id, read off the run. */
  function LatestSecret(calls: seq<Call>, id: string): Option<string>
  {
    if calls == [] then None
    else
      var last := calls[|calls| - 1];
      if last.id == id && last.Register? && Succeeded(calls, |calls| - 1) then Some(last.secret)
      else if last.id == id && last.RotateKey? && Succeeded(calls, |calls| - 1) then Some(last.newSecret)
      else LatestSecret(calls[..|calls| - 1], id)
  }

  /** The registration of id in the run that succeeded. */
  function Registration(calls: seq<Call>, id: string): Option<Call>
  {
    if calls == [] then None
    else
      var last := calls[|calls| - 1];
      if last.Register? && last.id == id && Succeeded(calls, |calls| - 1) then Some(last)
      else Registration(calls[..|calls| - 1], id)
  }

  predicate EverRegistered(calls: seq<Call>, id: string)
  {
    Registration(calls, id).Some?
  }

  /** When the latest successful rotation or revocation of id wrote its row. */
  function LastWritten(calls: seq<Call>, id: string): Option<int>
  {
    if calls == [] then None
    else
      var last := calls[|calls| - 1];
      if (last.RotateKey? || last.Revoke?) && last.id == id && Succeeded(calls, |calls| - 1) then Some(last.env.now)
      else LastWritten(calls[..|calls| - 1], id)
  }

  /** Some revocation of id in the run succeeded. */
  predicate EverRevoked(calls: seq<Call>, id: string)
  {
    && calls != []
    && var last := calls[|calls| - 1];
       (last.Revoke? && last.id == id && Succeeded(calls, |calls| - 1)) || EverRevoked(calls[..|calls| - 1], id)
  }

  /** The row that the run's calls say a device has. */
  ghost predicate RowTells(row: DeviceKey, calls: seq<Call>, id: string)
  {
    && row.status == (if EverRevoked(calls, id) then "revoked" else "active")
    && LatestSecret(calls, id) == Some(row.keyHash.secret)
    && row.lastSeenAt == LastWritten(calls, id)
    && Registration(calls, id).Some?
    && var reg := Registration(calls, id).value;
       reg.Register?
       && row.id == id && row.appID == reg.appID && row.deviceID == reg.deviceID && row.registeredAt == reg.env.now
  }

  /** The table is exactly what the run's successful calls say. */
  lemma {:induction false} TableTellsHistory(calls: seq<Call>, id: string)
    ensures id in After(calls) <==> EverRegistered(calls, id)
    ensures id in After(calls) ==> RowTells(After(calls)[id], calls, id)
    ensures id !in After(calls) ==>
              !EverRevoked(calls, id) && LatestSecret(calls, id) == None && LastWritten(calls, id) == None
  {
    if calls != [] {
      TableTellsHistory(calls[..|calls| - 1], id);
    }
  }

  /** A registration succeeds exactly when hashing and the store work and its key id was never registered. */
  lemma RegisterIff(calls: seq<Call>, id: string, appID: string, deviceID: string, secret: string, env: Env)
    ensures var o := Answer(After(calls), Register(id, appID, deviceID, secret, env));
            && (o == Done <==> env.hashOk && env.writeOk && !EverRegistered(calls, id))
            && (o != Done ==> o == Failed)
  {
    TableTellsHistory(calls, id);
  }

  /** Verify accepts exactly the secret of the registration or latest successful rotation of a device that was
      registered and never revoked; every refusal says which part failed. */
  lemma {:induction false} VerifyIff(calls: seq<Call>, id: string, secret: string, env: Env)
    ensures var o := Answer(After(calls), Verify(id, secret, env));
            && (o == Done <==> env.readOk && EverRegistered(calls, id) && !EverRevoked(calls, id)
                                && LatestSecret(calls, id) == Some(secret))
            && (o == NotFound <==> !env.readOk || !EverRegistered(calls, id))
            && (o == Outcome.Revoked <==> env.readOk && EverRevoked(calls, id))
            && (o == InvalidSecret <==> env.readOk && EverRegistered(calls, id) && !EverRevoked(calls, id)
                                         && LatestSecret(calls, id) != Some(secret))
  {
    TableTellsHistory(calls, id);
  }

  /** A rotation succeeds exactly when its old secret would verify and hashing and the store work. */
  lemma RotateIff(calls: seq<Call>, id: string, oldSecret: string, newSecret: string, env: Env)
    ensures var o := Answer(After(calls), RotateKey(id, oldSecret, newSecret, env));
            && (o == Done <==> env.readOk && env.writeOk && env.hashOk && EverRegistered(calls, id)
                                && !EverRevoked(calls, id) && LatestSecret(calls, id) == Some(oldSecret))
            && (o == NotFound <==> !env.readOk || !EverRegistered(calls, id))
            && (o == Outcome.Revoked <==> env.readOk && EverRevoked(calls, id))
            && (o == InvalidSecret <==> env.readOk && EverRegistered(calls, id) && !EverRevoked(calls, id)
                                         && LatestSecret(calls, id) != Some(oldSecret))
  {
    TableTellsHistory(calls, id);
  }

  /** A revocation succeeds exactly when the device was registered, revoked before or not, and the store works; from
      then on no secret verifies or rotates, whatever is called. */
  lemma RevokeIff(calls: seq<Call>, id: string, env: Env, later: seq<Call>)
    ensures var o := Answer(After(calls), Revoke(id, env));
            && (o == Done <==> env.readOk && env.writeOk && EverRegistered(calls, id))
            && (o == NotFound <==> !env.readOk || !EverRegistered(calls, id))
            && (o != Done && o != NotFound ==> o == Failed)
    ensures env.readOk && env.writeOk && EverRegistered(calls, id) ==>
              var all := calls + [Revoke(id, env)] + later;
              && (forall s, e: Env :: e.readOk ==> Answer(After(all), Verify(id, s, e)) == Outcome.Revoked)
              && (forall s, n, e: Env :: Answer(After(all), RotateKey(id, s, n, e)) != Done)
  {
    TableTellsHistory(calls, id);
    if env.readOk && env.writeOk && EverRegistered(calls, id) {
      var now := calls + [Revoke(id, env)];
      assert now[..|now| - 1] == calls;
      RevokedForever(now, later, id);
    }
  }

  /** Revocation is final: no later calls, in any number, make any secret verify or rotate again. */
  lemma {:induction false} RevokedForever(calls: seq<Call>, later: seq<Call>, id: string)
    requires EverRevoked(calls, id)
    ensures EverRevoked(calls + later, id)
    ensures forall s, env: Env :: env.readOk ==> Answer(After(calls + later), Verify(id, s, env)) == Outcome.Revoked
    ensures forall s, n, env :: Answer(After(calls + later), RotateKey(id, s, n, env)) != Done
  {
    if later == [] {
      assert calls + later == calls;
    } else {
      assert (calls + later)[..|calls + later| - 1] == calls + later[..|later| - 1];
      RevokedForever(calls, later[..|later| - 1], id);
    }
    TableTellsHistory(calls + later, id);
  }
}
