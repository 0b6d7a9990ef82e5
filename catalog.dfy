/**
  The metadata catalog of db/db.go as values. A State holds the five top-level bolt buckets; each
  transaction body (a db.Update or db.View callback) is one function from the state before it to the
  state after it and what it returns. The bolt behaviour the callbacks rely on is written out: Put
  refuses an empty key, CreateBucket refuses an empty name and an existing key, a key of a bucket is
  either a plain value or a nested bucket, and a panic inside db.Update rolls the transaction back.
 */
module Catalog {
  import opened Wrappers
  import Text

  /** A reading of the clock (time.Now), in nanoseconds. */
  type Time = nat

  const Minute: nat := 60 * 1000000000
  /** How long CheckToken honours a token after SaveToken stored it (time.Minute * 60). */
  const TokenTtl: nat := 60 * Minute

  /** The pseudo-owner of files written with an empty owner, and the owner Info reports. */
  const Public := "public"
  const OwnerKey := "owner"
  const DateKey := "date"
  const NameKey := "name"
  const SizeKey := "size"

  /**
    A file record, bucket MyBucket/<hash>. `attrs` are its plain key/value pairs (date, name, size and
    the options); `owners` is its nested bucket `owner`, absent until created, whose keys are the owners
    (each stored with the marker "w").
   */
  datatype Record = Record(attrs: map<string, string>, owners: Option<set<string>>)

  /** A user, bucket Users/<name>: the plain value `key` and the nested bucket `files` (hash -> name). */
  datatype User = User(key: Option<string>, files: Option<map<string, string>>)

  /** A bearer token, bucket Tokens/<token>: the values `name` and `date`. */
  datatype Token = Token(name: string, issued: Time)

  datatype State = State(
    files: map<string, Record>,             // MyBucket: hash -> record
    index: map<string, map<Time, string>>,  // SearchIndex: display name -> (timestamp -> hash)
    users: map<string, User>,               // Users
    tokens: map<string, Token>,             // Tokens
    authid: map<string, string>)            // AuthID: exchange token -> user

  /** The five buckets as initdb creates them in a new database file. */
  const Empty: State := State(map[], map[], map[], map[], map[])

  /**
    What bolt guarantees of every reachable state: no empty key anywhere, and in a record the key
    `owner` is either a plain value (the schema AlterDB migrates from) or the owner bucket, never both.
   */
  ghost predicate ValidRecord(r: Record) {
    "" !in r.attrs && (r.owners.Some? ==> OwnerKey !in r.attrs && "" !in r.owners.value)
  }

  ghost predicate Valid(s: State) {
    && FilesValid(s.files)
    && "" !in s.index
    && UsersValid(s.users)
    && "" !in s.tokens
    && "" !in s.authid
  }

  ghost predicate FilesValid(files: map<string, Record>) {
    "" !in files && forall h :: h in files ==> ValidRecord(files[h])
  }

  ghost predicate UsersValid(users: map<string, User>) {
    "" !in users && forall u :: u in users && users[u].files.Some? ==> "" !in users[u].files.value
  }

  lemma EmptyValid()
    ensures Valid(Empty)
  {
  }

  /** Bucket.Put of a plain value: an empty key is refused (ErrKeyRequired) and changes nothing. */
  function Put(m: map<string, string>, k: string, v: string): map<string, string> {
    if k == "" then m else m[k := v]
  }

  /** Write stores files of an empty owner under "public". */
  function Owner(owner: string): (o: string)
    ensures o != ""
  {
    if owner == "" then Public else owner
  }

  /** The text stored for a timestamp (time.MarshalText); here its decimal digits. */
  function Stamp(t: Time): string {
    Text.Decimal(t)
  }

  /** The attributes a new record gets before its options: date, name, and size when the blob could be opened. */
  function BaseAttrs(value: string, now: Time, size: Option<nat>): map<string, string> {
    var a := map[DateKey := Stamp(now), NameKey := value];
    if size.Some? then a[SizeKey := Text.Decimal(size.value)] else a
  }

  /** The option maps Put into a new record in call order (a later key overwrites); empty keys are refused. */
  function ApplyOptions(attrs: map<string, string>, options: seq<map<string, string>>): (r: map<string, string>)
    ensures forall k :: k in r ==> k in attrs || (k != "" && exists i :: 0 <= i < |options| && k in options[i])
    decreases |options|
  {
    if options == [] then attrs
    else ApplyOptions(attrs, options[..|options| - 1]) + (options[|options| - 1] - {""})
  }

  /**
    CreateBucketIfNotExists("owner") followed by Put(owner, "w"). When `owner` is a plain value of the
    record the bucket cannot be created (ErrIncompatibleValue) and nothing is written.
   */
  function AddOwner(r: Record, owner: string): (r': Record)
    ensures ValidRecord(r) ==> ValidRecord(r')
  {
    var added := if owner == "" then {} else {owner};
    if r.owners.Some? then r.(owners := Some(r.owners.value + added))
    else if OwnerKey in r.attrs then r
    else r.(owners := Some(added))
  }

  /** The entries of the index bucket of `name`, empty when that bucket does not exist. */
  function Entries(index: map<string, map<Time, string>>, name: string): map<Time, string> {
    if name in index then index[name] else map[]
  }

  /** The users after Write's first step: the files bucket of `o` is filled only by the call that creates it. */
  function AddUserFile(users: map<string, User>, o: string, key: string, value: string): (r: map<string, User>)
    ensures UsersValid(users) && o != "" ==> UsersValid(r)
  {
    var u := if o in users then users[o] else User(None, None);
    users[o := if u.files.None? then u.(files := Some(Put(map[], key, value))) else u]
  }

  /** The record Write creates for a new hash. */
  function NewRecord(value: string, now: Time, size: Option<nat>, options: seq<map<string, string>>): (r: Record)
    ensures ValidRecord(r)
  {
    Record(ApplyOptions(BaseAttrs(value, now, size), options), None)
  }

  /** Write's last step: the owner added to the record, when there is one. */
  function AddOwnerTo(files: map<string, Record>, key: string, o: string): (r: map<string, Record>)
    ensures FilesValid(files) ==> FilesValid(r)
  {
    if key in files then files[key := AddOwner(files[key], o)] else files
  }

  /**
    Write (db/db.go:58-105). None when the transaction panics: a new record with an empty display
    name makes CreateBucketIfNotExists of the index bucket fail, and the Put on the nil bucket that
    follows panics, which rolls the whole transaction back.
   */
  function Write(s: State, owner: string, key: string, value: string,
                 options: seq<map<string, string>>, now: Time, size: Option<nat>): (r: Option<State>)
    requires Valid(s)
    ensures r.None? <==> key != "" && key !in s.files && value == ""
  {
    var o := Owner(owner);
    var users := AddUserFile(s.users, o, key, value);
    var created := key != "" && key !in s.files;
    if created && value == "" then None
    else
      var files := if created then s.files[key := NewRecord(value, now, size, options)] else s.files;
      var index := if created then s.index[value := Entries(s.index, value)[now := key]] else s.index;
      Some(State(AddOwnerTo(files, key, o), index, users, s.tokens, s.authid))
  }

  /** Write keeps what bolt guarantees of the buckets. */
  lemma WriteValid(s: State, owner: string, key: string, value: string,
                   options: seq<map<string, string>>, now: Time, size: Option<nat>)
    requires Valid(s)
    ensures Write(s, owner, key, value, options, now, size).Some? ==>
              Valid(Write(s, owner, key, value, options, now, size).value)
  {
  }

  /** The index entries of a bucket, without those naming `hash` (the ForEach of Delete). */
  function Drop(entries: map<Time, string>, hash: string): (r: map<Time, string>)
    ensures forall t :: t in r <==> t in entries && entries[t] != hash
    ensures forall t :: t in r ==> r[t] == entries[t]
  {
    map t | t in entries && entries[t] != hash :: entries[t]
  }

  /** The name `owner` recorded for `key` in its files bucket, which Delete uses for the index cleanup. */
  function RecordedName(s: State, owner: string, key: string): Option<string> {
    if owner in s.users && s.users[owner].files.Some? && key in s.users[owner].files.value
    then Some(s.users[owner].files.value[key])
    else None
  }

  /**
    Delete (db/db.go:107-146): the new state and `remains`. `remains` is KeyN - 1 of the owner bucket;
    bolt's Stats reads the committed pages, so KeyN is the owner count before this transaction's delete.
   */
  function Delete(s: State, owner: string, key: string): (r: (State, int))
    requires Valid(s)
    ensures Valid(r.0)
  {
    var filename := RecordedName(s, owner, key);
    // Deleting file association with user
    var users := if owner in s.users && s.users[owner].files.Some?
                 then s.users[owner := s.users[owner].(files := Some(s.users[owner].files.value - {key}))]
                 else s.users;
    // Deleting user association with file
    var owned := key in s.files && s.files[key].owners.Some?;
    var remains: int := if owned then |s.files[key].owners.value| - 1 else 0;
    var files := if owned then s.files[key := s.files[key].(owners := Some(s.files[key].owners.value - {owner}))]
                 else s.files;
    if remains <= 0 then
      // Removing indexes and file only if no file owners left
      var index := if filename.Some? && filename.value in s.index
                   then s.index[filename.value := Drop(s.index[filename.value], key)]
                   else s.index;
      (State(files - {key}, index, users, s.tokens, s.authid), remains)
    else
      (State(files, s.index, users, s.tokens, s.authid), remains)
  }

  /** Read (db/db.go:148-158). */
  function Read(s: State, key: string): string {
    if key in s.files && NameKey in s.files[key].attrs then s.files[key].attrs[NameKey] else ""
  }

  /** List (db/db.go:160-173). */
  function List(s: State): map<string, string> {
    map h | h in s.files && NameKey in s.files[h].attrs :: s.files[h].attrs[NameKey]
  }

  /** Info (db/db.go:175-188). */
  function Info(s: State, hash: string): map<string, string> {
    (if hash in s.files then s.files[hash].attrs else map[])[OwnerKey := Public]
  }

  /** The index bucket of name n lists hash h. */
  ghost predicate Lists(index: map<string, map<Time, string>>, n: string, h: string) {
    n in index && h in index[n].Values
  }

  /**
    r is what the cursor loop of Search builds from the index buckets named in `names`, visited in key
    order: every hash they list, mapped to the greatest of those names that lists it (the last write wins).
   */
  ghost predicate SearchOver(index: map<string, map<Time, string>>, names: set<string>, r: map<string, string>) {
    && (forall h :: h in r <==> exists n :: n in names && Lists(index, n, h))
    && (forall h :: h in r ==> r[h] in names && Lists(index, r[h], h))
    && (forall h, n :: h in r && n in names && Lists(index, n, h) ==> Text.LexLe(n, r[h]))
  }

  /**
    Visiting one more bucket, greater than the buckets visited so far, maps every hash it lists to its
    name and keeps the other entries.
   */
  lemma SearchOverStep(index: map<string, map<Time, string>>, done: set<string>, n: string,
                       before: map<string, string>, after: map<string, string>)
    requires n in index && n !in done
    requires forall m :: m in done ==> Text.LexLe(m, n)
    requires SearchOver(index, done, before)
    requires forall h :: h in after <==> h in before || h in index[n].Values
    requires forall h :: h in after ==> after[h] == if h in index[n].Values then n else before[h]
    ensures SearchOver(index, done + {n}, after)
  {
    var names := done + {n};
    forall h ensures h in after <==> exists m :: m in names && Lists(index, m, h) {
      if h in index[n].Values {
        assert n in names && Lists(index, n, h);
      } else if h in before {
        var m :| m in done && Lists(index, m, h);
        assert m in names;
      } else {
        forall m | m in names ensures !Lists(index, m, h) {
          if m != n { assert m in done; }
        }
      }
    }
    forall h | h in after ensures after[h] in names && Lists(index, after[h], h) {
      if h !in index[n].Values {
        assert h in before && after[h] == before[h];
      }
    }
    forall h, m | h in after && m in names && Lists(index, m, h) ensures Text.LexLe(m, after[h]) {
      if h in index[n].Values {
        if m == n { Text.LexLeRefl(n); }
      } else {
        assert m != n && m in done && h in before;
      }
    }
  }

  /** The names the cursor of Search visits: Seek(query) and Next while the key has the prefix query. */
  function Matching(index: map<string, map<Time, string>>, query: string): set<string> {
    set n | n in index && Text.HasPrefix(n, query)
  }

  /** r is the result of Search(query) (db/db.go:194-208). */
  ghost predicate IsSearch(s: State, query: string, r: map<string, string>) {
    SearchOver(s.index, Matching(s.index, query), r)
  }

  lemma MaxTimeExists(ks: set<Time>)
    requires ks != {}
    ensures exists m :: m in ks && forall k :: k in ks ==> k <= m
  {
    var y :| y in ks;
    if ks != {y} {
      MaxTimeExists(ks - {y});
      var m :| m in ks - {y} && forall k :: k in ks - {y} ==> k <= m;
      var top := if m < y then y else m;
      forall k | k in ks ensures k <= top {
        if k != y { assert k in ks - {y}; }
      }
    }
  }

  /** The greatest timestamp of an index bucket: where Cursor().Last() stops. */
  function MaxTime(ks: set<Time>): (m: Time)
    requires ks != {}
    ensures m in ks && forall k :: k in ks ==> k <= m
  {
    MaxTimeExists(ks);
    var m :| m in ks && forall k :: k in ks ==> k <= m;
    m
  }

  /** LastHash (db/db.go:210-219): the hash under the greatest timestamp of the name's bucket. */
  function LastHash(s: State, name: string): string {
    if name in s.index && s.index[name] != map[] then s.index[name][MaxTime(s.index[name].Keys)] else ""
  }

  /** RegisterUser (db/db.go:221-229): CreateBucket fails for an existing or empty name and the transaction returns that error. */
  function RegisterUser(s: State, name: string, key: string): (r: State)
    requires Valid(s)
    ensures Valid(r)
  {
    if name == "" || name in s.users then s else s.(users := s.users[name := User(Some(key), None)])
  }

  /** UserKey (db/db.go:231-241). */
  function UserKey(s: State, name: string): string {
    if name in s.users && s.users[name].key.Some? then s.users[name].key.value else ""
  }

  /** SaveToken (db/db.go:243-252): under the raw token, as written. */
  function SaveToken(s: State, name: string, token: string, now: Time): (r: State)
    requires Valid(s)
    ensures Valid(r)
  {
    if token == "" then s else s.(tokens := s.tokens[token := Token(name, now)])
  }

  /** date.Add(time.Minute * 60).Before(now) */
  predicate Expired(t: Token, now: Time) {
    t.issued + TokenTtl < now
  }

  /** CheckToken (db/db.go:254-273): looks the token up under its digest (sha256, hex) and honours it for 60 minutes. */
  function CheckToken(s: State, token: string, now: Time, digest: string -> string): string {
    var d := digest(token);
    if d in s.tokens && !Expired(s.tokens[d], now) then s.tokens[d].name else ""
  }

  /** SaveAuthID (db/db.go:275-280). */
  function SaveAuthID(s: State, name: string, token: string): (r: State)
    requires Valid(s)
    ensures Valid(r)
  {
    if token == "" then s else s.(authid := s.authid[token := name])
  }

  /** CheckAuthID (db/db.go:282-292): the new state and the name found, which is deleted. */
  function CheckAuthID(s: State, token: string): (r: (State, string))
    requires Valid(s)
    ensures Valid(r.0)
  {
    if token in s.authid then (s.(authid := s.authid - {token}), s.authid[token]) else (s, "")
  }

  /** CheckOwner (db/db.go:294-305). */
  predicate CheckOwner(s: State, owner: string, hash: string) {
    hash in s.files && s.files[hash].owners.Some? && owner in s.files[hash].owners.value
  }

  /**
    One record as AlterDB leaves it: a plain `owner` value becomes an owner bucket holding that owner
    (an empty value cannot be Put, leaving the bucket empty).
   */
  function Migrate(r: Record): Record {
    if OwnerKey in r.attrs then
      var v := r.attrs[OwnerKey];
      Record(r.attrs - {OwnerKey}, Some(if v == "" then {} else {v}))
    else r
  }

  /** AlterDB (db/db.go:42-56). */
  function AlterDB(s: State): (r: State)
    requires Valid(s)
    ensures Valid(r)
  {
    s.(files := map h | h in s.files :: Migrate(s.files[h]))
  }

  // Corrected definitions (see the findings of README.md).

  /** SaveToken storing the token under the digest CheckToken looks it up by. */
  function SaveTokenHashed(s: State, name: string, token: string, now: Time, digest: string -> string): (r: State)
    requires Valid(s)
    ensures Valid(r)
  {
    SaveToken(s, name, digest(token), now)
  }

  /** Delete removing the purged hash from every index bucket, whatever name it was written under. */
  function DeletePurging(s: State, owner: string, key: string): (r: (State, int))
    requires Valid(s)
    ensures Valid(r.0)
  {
    var (t, remains) := Delete(s, owner, key);
    if remains <= 0 then (t.(index := map n | n in t.index :: Drop(t.index[n], key)), remains)
    else (t, remains)
  }

  /** The index lists only hashes that have a record. */
  ghost predicate IndexLive(s: State) {
    forall n, t :: n in s.index && t in s.index[n] ==> s.index[n][t] in s.files
  }
}
