/**
  What the catalog promises, proved about the transaction functions of Catalog: ownership and the
  write-once parts of Write, reference-counted Delete, the readers, the name index, the token and
  exchange-token tables, and the owner migration.
 */
module CatalogProps {
  import opened Wrappers
  import Text
  import opened Catalog

  // ---------------------------------------------------------------------------------------------
  // The option maps of a new record

  /** A record key comes from the base attributes or from some option; the empty key never does. */
  lemma {:induction false} ApplyOptionsKeys(attrs: map<string, string>, options: seq<map<string, string>>, k: string)
    ensures k in ApplyOptions(attrs, options) <==>
            k in attrs || (k != "" && exists i :: 0 <= i < |options| && k in options[i])
    decreases |options|
  {
    if options != [] {
      var init := options[..|options| - 1];
      ApplyOptionsKeys(attrs, init, k);
      if k != "" && k in options[|options| - 1] {
        assert k in ApplyOptions(attrs, options);
      }
      if k != "" && (exists i :: 0 <= i < |options| && k in options[i]) {
        var i :| 0 <= i < |options| && k in options[i];
        if i < |options| - 1 { assert k in init[i]; }
      }
      if k in ApplyOptions(attrs, options) && k !in attrs && k !in options[|options| - 1] {
        var i :| 0 <= i < |init| && k in init[i];
        assert k in options[i];
      }
    }
  }

  /** The last option map naming a key decides its value. */
  lemma {:induction false} ApplyOptionsLastWins(attrs: map<string, string>, options: seq<map<string, string>>,
                                                k: string, i: nat)
    requires i < |options| && k != "" && k in options[i]
    requires forall j :: i < j < |options| ==> k !in options[j]
    ensures k in ApplyOptions(attrs, options) && ApplyOptions(attrs, options)[k] == options[i][k]
    decreases |options|
  {
    if i < |options| - 1 {
      var init := options[..|options| - 1];
      ApplyOptionsLastWins(attrs, init, k, i);
    }
  }

  /** A base attribute no option names keeps its value. */
  lemma {:induction false} ApplyOptionsKeeps(attrs: map<string, string>, options: seq<map<string, string>>, k: string)
    requires k in attrs
    requires forall j :: 0 <= j < |options| ==> k !in options[j]
    ensures k in ApplyOptions(attrs, options) && ApplyOptions(attrs, options)[k] == attrs[k]
    decreases |options|
  {
    if options != [] {
      ApplyOptionsKeeps(attrs, options[..|options| - 1], k);
    }
  }

  /** A single option map is laid over the base attributes, without its empty key. */
  lemma OneOption(base: map<string, string>, meta: map<string, string>)
    ensures ApplyOptions(base, [meta]) == base + (meta - {""})
  {
    assert [meta][..0] == [];
  }

  /** What Info shows of a record made of base attributes and one option map. */
  lemma Overlay(base: map<string, string>, meta: map<string, string>, k: string)
    ensures var shown := (base + (meta - {""}))[OwnerKey := Public];
            && (k in shown <==> k == OwnerKey || k in base || (k != "" && k in meta))
            && (k != OwnerKey && k != "" && k in meta ==> shown[k] == meta[k])
  {
  }

  /** No option map names k. */
  predicate Unnamed(options: seq<map<string, string>>, k: string) {
    forall j :: 0 <= j < |options| ==> k !in options[j]
  }

  // ---------------------------------------------------------------------------------------------
  // Write

  /**
    After a Write its owner (the empty owner stored as "public") owns the hash, unless the hash is
    empty or its record holds a plain `owner` value (an old-schema record, or a new one whose options
    set `owner`), which makes the owner bucket impossible to create. Every earlier owner stays.
   */
  lemma WriteOwner(s: State, owner: string, key: string, value: string,
                   options: seq<map<string, string>>, now: Time, size: Option<nat>)
    requires Valid(s)
    requires Write(s, owner, key, value, options, now, size).Some?
    ensures var t := Write(s, owner, key, value, options, now, size).value;
            && (CheckOwner(t, Owner(owner), key) <==>
                 key != "" &&
                 if key in s.files then s.files[key].owners.Some? || OwnerKey !in s.files[key].attrs
                 else Unnamed(options, OwnerKey))
            && (forall u, h :: CheckOwner(s, u, h) ==> CheckOwner(t, u, h))
  {
    var o := Owner(owner);
    var t := Write(s, owner, key, value, options, now, size).value;
    var files := if key != "" && key !in s.files then s.files[key := NewRecord(value, now, size, options)]
                 else s.files;
    assert t.files == AddOwnerTo(files, key, o);
    if key != "" && key !in s.files {
      ApplyOptionsKeys(BaseAttrs(value, now, size), options, OwnerKey);
      assert OwnerKey !in BaseAttrs(value, now, size);
    }
    forall u, h | CheckOwner(s, u, h) ensures CheckOwner(t, u, h) {
      assert h in files && files[h] == s.files[h];
    }
  }

  /** An empty owner is stored as "public". */
  lemma WriteEmptyOwner(s: State, key: string, value: string,
                        options: seq<map<string, string>>, now: Time, size: Option<nat>)
    requires Valid(s)
    requires key in s.files && s.files[key].owners.Some?
    ensures Write(s, "", key, value, options, now, size).Some?
    ensures CheckOwner(Write(s, "", key, value, options, now, size).value, Public, key)
  {
  }

  /** An owner writing a hash it already owns, once its files bucket exists, changes nothing. */
  lemma WriteAgain(s: State, owner: string, key: string, value: string,
                   options: seq<map<string, string>>, now: Time, size: Option<nat>)
    requires Valid(s)
    requires CheckOwner(s, Owner(owner), key)
    requires Owner(owner) in s.users && s.users[Owner(owner)].files.Some?
    ensures Write(s, owner, key, value, options, now, size) == Some(s)
  {
    var o := Owner(owner);
    assert AddUserFile(s.users, o, key, value) == s.users;
    assert s.files[key].owners.value + {o} == s.files[key].owners.value;
    assert s.files[key := AddOwner(s.files[key], o)] == s.files;
  }

  /**
    On a hash with no record Write creates one and adds `now -> hash` under the display name to the index,
    changing no other record and no other index bucket; with an empty display name it panics instead.
   */
  lemma WriteFresh(s: State, owner: string, key: string, value: string,
                   options: seq<map<string, string>>, now: Time, size: Option<nat>)
    requires Valid(s)
    requires key != "" && key !in s.files
    ensures Write(s, owner, key, value, options, now, size).Some? <==> value != ""
    ensures value != "" ==>
      var t := Write(s, owner, key, value, options, now, size).value;
      && t.files.Keys == s.files.Keys + {key}
      && (forall h :: h in s.files ==> t.files[h] == s.files[h])
      && t.files[key].attrs == ApplyOptions(BaseAttrs(value, now, size), options)
      && t.index.Keys == s.index.Keys + {value}
      && t.index[value] == Entries(s.index, value)[now := key]
      && (forall n :: n in s.index && n != value ==> t.index[n] == s.index[n])
  {
    if value != "" {
      WriteFreshFiles(s, owner, key, value, options, now, size);
      WriteFreshIndex(s, owner, key, value, options, now, size);
    }
  }

  lemma WriteFreshFiles(s: State, owner: string, key: string, value: string,
                        options: seq<map<string, string>>, now: Time, size: Option<nat>)
    requires Valid(s)
    requires key != "" && key !in s.files && value != ""
    ensures var t := Write(s, owner, key, value, options, now, size).value;
      && t.files.Keys == s.files.Keys + {key}
      && (forall h :: h in s.files ==> t.files[h] == s.files[h])
      && t.files[key].attrs == ApplyOptions(BaseAttrs(value, now, size), options)
  {
    var o := Owner(owner);
    var rec := NewRecord(value, now, size, options);
    var files := s.files[key := rec];
    var t := Write(s, owner, key, value, options, now, size).value;
    assert t.files == AddOwnerTo(files, key, o);
    assert t.files == files[key := AddOwner(rec, o)];
    assert AddOwner(rec, o).attrs == rec.attrs;
  }

  lemma WriteFreshIndex(s: State, owner: string, key: string, value: string,
                        options: seq<map<string, string>>, now: Time, size: Option<nat>)
    requires Valid(s)
    requires key != "" && key !in s.files && value != ""
    ensures var t := Write(s, owner, key, value, options, now, size).value;
      && t.index.Keys == s.index.Keys + {value}
      && t.index[value] == Entries(s.index, value)[now := key]
      && (forall n :: n in s.index && n != value ==> t.index[n] == s.index[n])
  {
    var t := Write(s, owner, key, value, options, now, size).value;
    assert t.index == s.index[value := Entries(s.index, value)[now := key]];
  }

  /**
    A new record written with one option map, as the upload handlers write it: Info shows the base
    attributes with the map laid over them, and every other record is kept.
   */
  lemma WriteOneInfo(s: State, owner: string, key: string, value: string, meta: map<string, string>,
                     now: Time, size: Option<nat>)
    requires Valid(s)
    requires key != "" && key !in s.files && value != ""
    ensures Write(s, owner, key, value, [meta], now, size).Some?
    ensures var t := Write(s, owner, key, value, [meta], now, size).value;
            && Info(t, key) == (BaseAttrs(value, now, size) + (meta - {""}))[OwnerKey := Public]
            && t.files.Keys == s.files.Keys + {key}
            && (forall h :: h in s.files ==> t.files[h] == s.files[h])
  {
    WriteFresh(s, owner, key, value, [meta], now, size);
    OneOption(BaseAttrs(value, now, size), meta);
  }

  /**
    The attributes of a new record: date, name, and size only when the blob could be opened, each of them
    as Write computes it unless an option map overrides it.
   */
  lemma NewRecordAttrs(value: string, now: Time, size: Option<nat>, options: seq<map<string, string>>)
    ensures var attrs := NewRecord(value, now, size, options).attrs;
      && (Unnamed(options, NameKey) ==> NameKey in attrs && attrs[NameKey] == value)
      && (Unnamed(options, DateKey) ==> DateKey in attrs && attrs[DateKey] == Stamp(now))
      && (Unnamed(options, SizeKey) ==>
            (SizeKey in attrs <==> size.Some?) &&
            (size.Some? ==> attrs[SizeKey] == Text.Decimal(size.value)))
      && (forall k :: k in attrs <==>
                       (k in {NameKey, DateKey} || (k == SizeKey && size.Some?) ||
                        (k != "" && exists i :: 0 <= i < |options| && k in options[i])))
  {
    var base := BaseAttrs(value, now, size);
    if Unnamed(options, NameKey) { ApplyOptionsKeeps(base, options, NameKey); }
    if Unnamed(options, DateKey) { ApplyOptionsKeeps(base, options, DateKey); }
    if Unnamed(options, SizeKey) {
      ApplyOptionsKeys(base, options, SizeKey);
      if size.Some? { ApplyOptionsKeeps(base, options, SizeKey); }
    }
    forall k ensures k in ApplyOptions(base, options) <==>
                       (k in {NameKey, DateKey} || (k == SizeKey && size.Some?) ||
                        (k != "" && exists i :: 0 <= i < |options| && k in options[i])) {
      ApplyOptionsKeys(base, options, k);
    }
  }

  /**
    The round trip of the catalog: a display name written under a new hash is what Read returns for it,
    the writer owns it, and Read of every other hash is unchanged.
   */
  lemma WriteRead(s: State, owner: string, key: string, value: string, now: Time, size: Option<nat>)
    requires Valid(s)
    requires key != "" && key !in s.files && value != ""
    ensures Write(s, owner, key, value, [], now, size).Some?
    ensures var t := Write(s, owner, key, value, [], now, size).value;
            && Read(t, key) == value
            && CheckOwner(t, Owner(owner), key)
            && (forall h :: h != key ==> Read(t, h) == Read(s, h))
  {
    WriteFresh(s, owner, key, value, [], now, size);
    NewRecordAttrs(value, now, size, []);
    WriteOwner(s, owner, key, value, [], now, size);
  }

  /** On a hash that has a record Write leaves its attributes, every other record and the index alone. */
  lemma WriteExisting(s: State, owner: string, key: string, value: string,
                      options: seq<map<string, string>>, now: Time, size: Option<nat>)
    requires Valid(s)
    requires key in s.files
    ensures Write(s, owner, key, value, options, now, size).Some?
    ensures var t := Write(s, owner, key, value, options, now, size).value;
            && t.files.Keys == s.files.Keys
            && t.files[key].attrs == s.files[key].attrs
            && (forall h :: h in s.files && h != key ==> t.files[h] == s.files[h])
            && t.index == s.index && t.tokens == s.tokens && t.authid == s.authid
  {
  }

  /**
    Write creates the owner's user entry when it is missing, and records `hash -> name` in the owner's
    files bucket only when this call creates that bucket.
   */
  lemma WriteUserFiles(s: State, owner: string, key: string, value: string,
                       options: seq<map<string, string>>, now: Time, size: Option<nat>)
    requires Valid(s)
    requires Write(s, owner, key, value, options, now, size).Some?
    ensures var t := Write(s, owner, key, value, options, now, size).value; var o := Owner(owner);
            && t.users.Keys == s.users.Keys + {o}
            && t.users[o].key == (if o in s.users then s.users[o].key else None)
            && t.users[o].files == (if o in s.users && s.users[o].files.Some? then s.users[o].files
                                    else Some(if key == "" then map[] else map[key := value]))
            && (forall u :: u in s.users && u != o ==> t.users[u] == s.users[u])
  {
  }

  /** A user Write created implicitly can never register: RegisterUser changes nothing for it. */
  lemma RegisterAfterWrite(s: State, owner: string, key: string, value: string,
                           options: seq<map<string, string>>, now: Time, size: Option<nat>, userKey: string)
    requires Valid(s)
    requires Write(s, owner, key, value, options, now, size).Some?
    ensures var t := Write(s, owner, key, value, options, now, size).value;
            RegisterUser(t, Owner(owner), userKey) == t
  {
  }

  // ---------------------------------------------------------------------------------------------
  // Users

  /** RegisterUser keeps an existing user; a new one gets its key, which UserKey then returns. */
  lemma RegisterThenKey(s: State, name: string, key: string)
    requires Valid(s)
    ensures name in s.users ==> RegisterUser(s, name, key) == s
    ensures name != "" && name !in s.users ==> UserKey(RegisterUser(s, name, key), name) == key
    ensures forall u :: u != name ==> UserKey(RegisterUser(s, name, key), u) == UserKey(s, u)
  {
  }

  /** UserKey is "" for an unknown user and for one without a key. */
  lemma UserKeyMissing(s: State, name: string)
    requires name !in s.users || s.users[name].key.None?
    ensures UserKey(s, name) == ""
  {
  }

  // ---------------------------------------------------------------------------------------------
  // Delete

  /**
    Delete detaches the owner from the hash and the hash from the owner's files bucket; `remains` is the
    owner count before the call minus one (0 without an owner bucket), and the record survives exactly
    when that is positive, with its attributes and its other owners unchanged. Other records, other users,
    tokens and exchange tokens are untouched.
   */
  lemma DeleteRecord(s: State, owner: string, key: string)
    requires Valid(s)
    ensures var (t, remains) := Delete(s, owner, key);
            && !CheckOwner(t, owner, key)
            && remains == (if key in s.files && s.files[key].owners.Some? then |s.files[key].owners.value| - 1 else 0)
            && (key in t.files <==> remains > 0)
            && (remains > 0 ==> t.files[key] == s.files[key].(owners := Some(s.files[key].owners.value - {owner})))
            && t.files.Keys <= s.files.Keys
            && (forall h :: h in s.files && h != key ==> h in t.files && t.files[h] == s.files[h])
            && t.tokens == s.tokens && t.authid == s.authid
  {
  }

  /** Delete removes the hash from the owner's files bucket and changes no other user. */
  lemma DeleteUsers(s: State, owner: string, key: string)
    requires Valid(s)
    ensures var t := Delete(s, owner, key).0;
            && t.users.Keys == s.users.Keys
            && (owner in s.users ==> t.users[owner].key == s.users[owner].key)
            && (owner in s.users && s.users[owner].files.Some? ==>
                  t.users[owner].files == Some(s.users[owner].files.value - {key}))
            && (forall u :: u in s.users && u != owner ==> t.users[u] == s.users[u])
  {
  }

  /**
    The index cleanup of Delete: when the record goes, the entries naming the hash leave the bucket of
    the name recorded in the owner's files bucket, and only that bucket changes; otherwise the index is
    unchanged.
   */
  lemma DeleteIndex(s: State, owner: string, key: string)
    requires Valid(s)
    ensures var (t, remains) := Delete(s, owner, key);
            && t.index.Keys == s.index.Keys
            && (remains > 0 ==> t.index == s.index)
            && (remains <= 0 ==> forall n :: n in s.index ==>
                  t.index[n] == if RecordedName(s, owner, key) == Some(n) then Drop(s.index[n], key) else s.index[n])
            && (remains <= 0 && RecordedName(s, owner, key).Some? && RecordedName(s, owner, key).value in t.index ==>
                  key !in t.index[RecordedName(s, owner, key).value].Values)
  {
  }

  /** A record shared with another owner survives, and still belongs to that owner. */
  lemma DeleteShared(s: State, owner: string, other: string, key: string)
    requires Valid(s)
    requires CheckOwner(s, owner, key) && CheckOwner(s, other, key) && owner != other
    ensures key in Delete(s, owner, key).0.files
    ensures CheckOwner(Delete(s, owner, key).0, other, key)
  {
    var os := s.files[key].owners.value;
    assert {owner, other} <= os;
    assert |{owner, other}| == 2;
    SubsetCard({owner, other}, os);
  }

  lemma SubsetCard(a: set<string>, b: set<string>)
    requires a <= b
    ensures |a| <= |b|
  {
    assert b == a + (b - a);
  }

  /**
    `remains` counts owners before the delete, not who asks: a Delete by someone who is not the only
    owner of a single-owner record removes that record too.
   */
  lemma DeleteByOther(s: State, caller: string, holder: string, key: string)
    requires Valid(s)
    requires key in s.files && s.files[key].owners == Some({holder}) && caller != holder
    ensures Delete(s, caller, key).1 == 0
    ensures key !in Delete(s, caller, key).0.files
  {
  }

  /** Delete on a hash without a record returns 0 and leaves every record as it was. */
  lemma DeleteUnknown(s: State, owner: string, key: string)
    requires Valid(s)
    requires key !in s.files
    ensures Delete(s, owner, key).1 == 0
    ensures Delete(s, owner, key).0.files == s.files
  {
  }

  // ---------------------------------------------------------------------------------------------
  // Readers

  /** List holds exactly the records that have a name, each mapped to what Read returns for it. */
  lemma ListRead(s: State)
    ensures forall h :: h in List(s) <==> h in s.files && NameKey in s.files[h].attrs
    ensures forall h :: h in List(s) ==> List(s)[h] == Read(s, h)
    ensures forall h :: h !in List(s) ==> Read(s, h) == ""
  {
  }

  /**
    Info reports every attribute of the record with `owner` forced to "public", and exactly
    {"owner": "public"} for an unknown hash.
   */
  lemma InfoOwner(s: State, hash: string)
    ensures Info(s, hash)[OwnerKey] == Public
    ensures forall k :: k != OwnerKey ==>
              (k in Info(s, hash) <==> hash in s.files && k in s.files[hash].attrs)
    ensures forall k :: k != OwnerKey && k in Info(s, hash) ==> Info(s, hash)[k] == s.files[hash].attrs[k]
    ensures hash !in s.files ==> Info(s, hash) == map[OwnerKey := Public]
    ensures hash in List(s) ==> Info(s, hash)[NameKey] == Read(s, hash)
  {
  }

  // ---------------------------------------------------------------------------------------------
  // Search and LastHash

  /** Search has one result: the hash of every entry under a name with the prefix, nothing else. */
  lemma {:induction false} SearchUnique(s: State, query: string, r1: map<string, string>, r2: map<string, string>)
    requires IsSearch(s, query, r1) && IsSearch(s, query, r2)
    ensures r1 == r2
  {
    forall h | h in r1 ensures r1[h] == r2[h] {
      Text.LexLeAntisymmetric(r1[h], r2[h]);
    }
  }

  /** Every hash Search reports is listed under the name it reports, which has the prefix. */
  lemma SearchSound(s: State, query: string, r: map<string, string>)
    requires IsSearch(s, query, r)
    ensures forall h :: h in r ==> Text.HasPrefix(r[h], query) && Lists(s.index, r[h], h)
    ensures (forall n :: n in s.index ==> !Text.HasPrefix(n, query)) ==> r == map[]
  {
  }

  /** A hash just written under a name is found by every prefix of that name. */
  lemma SearchAfterWrite(s: State, owner: string, key: string, value: string,
                         options: seq<map<string, string>>, now: Time, size: Option<nat>,
                         query: string, r: map<string, string>)
    requires Valid(s)
    requires key != "" && key !in s.files && value != ""
    requires Text.HasPrefix(value, query)
    requires IsSearch(Write(s, owner, key, value, options, now, size).value, query, r)
    ensures key in r
  {
    WriteFresh(s, owner, key, value, options, now, size);
    var t := Write(s, owner, key, value, options, now, size).value;
    assert Lists(t.index, value, key) by {
      assert t.index[value][now] == key;
    }
    assert value in Matching(t.index, query);
  }

  /** LastHash is the hash under the greatest timestamp of the name's bucket, "" without one. */
  lemma LastHashLatest(s: State, name: string)
    ensures name !in s.index || s.index[name] == map[] ==> LastHash(s, name) == ""
    ensures name in s.index && s.index[name] != map[] ==>
              exists t :: t in s.index[name] && LastHash(s, name) == s.index[name][t] &&
                          forall t' :: t' in s.index[name] ==> t' <= t
  {
    if name in s.index && s.index[name] != map[] {
      var m := MaxTime(s.index[name].Keys);
      assert m in s.index[name] && LastHash(s, name) == s.index[name][m];
    }
  }

  /** A Write stamped later than every entry of its name makes its hash the name's last one. */
  lemma LastHashAfterWrite(s: State, owner: string, key: string, value: string,
                           options: seq<map<string, string>>, now: Time, size: Option<nat>)
    requires Valid(s)
    requires key != "" && key !in s.files && value != ""
    requires forall t :: t in Entries(s.index, value) ==> t < now
    ensures LastHash(Write(s, owner, key, value, options, now, size).value, value) == key
  {
    WriteFresh(s, owner, key, value, options, now, size);
    var t := Write(s, owner, key, value, options, now, size).value;
    assert now in t.index[value];
    var m := MaxTime(t.index[value].Keys);
    assert m == now;
  }

  // ---------------------------------------------------------------------------------------------
  // Tokens and exchange tokens

  /**
    A token stored under its digest is honoured up to 60 minutes after it was issued and not later: at
    T + 59 minutes it names its user, at T + 61 minutes it names nobody.
   */
  lemma TokenTtlWindow(s: State, name: string, token: string, issued: Time, now: Time, digest: string -> string)
    requires Valid(s)
    requires digest(token) != ""
    ensures var t := SaveTokenHashed(s, name, token, issued, digest);
            && CheckToken(t, token, now, digest) == (if now <= issued + TokenTtl then name else "")
            && CheckToken(t, token, issued + 59 * Minute, digest) == name
            && CheckToken(t, token, issued + 61 * Minute, digest) == ""
  {
  }

  /** CheckToken names a user exactly when an unexpired token is stored under the digest of its input. */
  lemma CheckTokenFound(s: State, token: string, now: Time, digest: string -> string)
    ensures CheckToken(s, token, now, digest) != "" ==>
              digest(token) in s.tokens && !Expired(s.tokens[digest(token)], now)
    ensures digest(token) in s.tokens && !Expired(s.tokens[digest(token)], now) ==>
              CheckToken(s, token, now, digest) == s.tokens[digest(token)].name
  {
  }

  /** An exchange token names its user once: the lookup deletes it, and a second lookup finds nothing. */
  lemma AuthIDOnce(s: State, name: string, token: string)
    requires Valid(s)
    requires token != ""
    ensures var s1 := SaveAuthID(s, name, token);
            var (s2, first) := CheckAuthID(s1, token);
            && first == name
            && CheckAuthID(s2, token) == (s2, "")
            && s2.authid == s.authid - {token}
  {
  }

  // ---------------------------------------------------------------------------------------------
  // AlterDB

  /**
    AlterDB turns every plain `owner` value into an owner bucket holding that owner, leaves the other
    records and every attribute but `owner` alone, and running it again changes nothing.
   */
  lemma AlterDBMigrates(s: State)
    requires Valid(s)
    ensures var t := AlterDB(s);
            && t.files.Keys == s.files.Keys
            && (forall h :: h in s.files && OwnerKey in s.files[h].attrs && s.files[h].attrs[OwnerKey] != "" ==>
                  CheckOwner(t, s.files[h].attrs[OwnerKey], h))
            && (forall h :: h in s.files ==> OwnerKey !in t.files[h].attrs || t.files[h] == s.files[h])
            && (forall h :: h in s.files && OwnerKey !in s.files[h].attrs ==> t.files[h] == s.files[h])
            && (forall h :: h in s.files ==> t.files[h].attrs == s.files[h].attrs - {OwnerKey})
            && AlterDB(t) == t
  {
    var t := AlterDB(s);
    forall h | h in s.files ensures t.files[h].attrs == s.files[h].attrs - {OwnerKey} {
      if OwnerKey !in s.files[h].attrs {
        assert s.files[h].attrs - {OwnerKey} == s.files[h].attrs;
      }
    }
    assert forall h :: h in t.files ==> Migrate(t.files[h]) == t.files[h];
    assert AlterDB(t).files == t.files;
  }

  // ---------------------------------------------------------------------------------------------
  // Findings

  /**
    As written, SaveToken stores the raw token while CheckToken looks up its digest: whenever the digest
    differs from the token, saving it leaves CheckToken's answer as it was (for a fresh store, "").
   */
  lemma SaveTokenNeverChecks(s: State, name: string, token: string, issued: Time, now: Time,
                             digest: string -> string)
    requires Valid(s)
    requires digest(token) != token
    ensures CheckToken(SaveToken(s, name, token, issued), token, now, digest) == CheckToken(s, token, now, digest)
    ensures CheckToken(SaveToken(Empty, name, token, issued), token, issued, digest) == ""
  {
  }

  /** The corrected SaveToken: a token just saved is honoured at once. */
  lemma SaveTokenHashedChecks(s: State, name: string, token: string, issued: Time, digest: string -> string)
    requires Valid(s)
    requires digest(token) != ""
    ensures CheckToken(SaveTokenHashed(s, name, token, issued, digest), token, issued, digest) == name
  {
  }

  lemma EmptyIndexLive()
    ensures IndexLive(Empty)
  {
  }

  /**
    As written, Delete cleans the index only in the bucket of the name recorded in the deleting owner's
    files bucket, which Write fills once: after Write(u, h1, "a"), Write(u, h2, "b") and Delete(u, h2) the
    record of h2 is gone while the index still lists h2 under "b".
   */
  lemma DeleteLeavesStaleIndex()
    ensures var s1 := Write(Empty, "u", "h1", "a", [], 1, None).value;
            var s2 := Write(s1, "u", "h2", "b", [], 2, None).value;
            var s3 := Delete(s2, "u", "h2").0;
            && "h2" !in s3.files
            && "b" in s3.index && 2 in s3.index["b"] && s3.index["b"][2] == "h2"
            && !IndexLive(s3)
  {
    EmptyValid();
    var s1 := Write(Empty, "u", "h1", "a", [], 1, None).value;
    assert s1.users["u"].files == Some(map["h1" := "a"]);
    var s2 := Write(s1, "u", "h2", "b", [], 2, None).value;
    assert s2.users["u"].files == Some(map["h1" := "a"]);
    assert s2.index["b"] == map[2 := "h2"];
    assert s2.files["h2"].owners == Some({"u"});
    assert RecordedName(s2, "u", "h2") == None;
    var s3 := Delete(s2, "u", "h2").0;
    assert s3.index == s2.index;
  }

  /** Write lists in the index only the hash of the record it creates. */
  lemma WriteKeepsIndexLive(s: State, owner: string, key: string, value: string,
                            options: seq<map<string, string>>, now: Time, size: Option<nat>)
    requires Valid(s) && IndexLive(s)
    requires Write(s, owner, key, value, options, now, size).Some?
    ensures IndexLive(Write(s, owner, key, value, options, now, size).value)
  {
    var t := Write(s, owner, key, value, options, now, size).value;
    assert forall h :: h in s.files ==> h in t.files;
  }

  /** The corrected Delete never leaves the index listing a hash whose record it removed. */
  lemma DeletePurgingKeepsIndexLive(s: State, owner: string, key: string)
    requires Valid(s) && IndexLive(s)
    ensures IndexLive(DeletePurging(s, owner, key).0)
  {
    var (t, remains) := Delete(s, owner, key);
    DeleteRecord(s, owner, key);
    DeleteIndex(s, owner, key);
    if remains <= 0 {
      var u := DeletePurging(s, owner, key).0;
      forall n, ts | n in u.index && ts in u.index[n] ensures u.index[n][ts] in u.files {
        assert u.index[n] == Drop(t.index[n], key);
        var h := t.index[n][ts];
        assert h != key;
        assert h in s.index[n].Values || h in t.index[n].Values;
        if RecordedName(s, owner, key) == Some(n) {
          assert h == s.index[n][ts];
        } else {
          assert h == s.index[n][ts];
        }
        assert h in s.files;
      }
    }
  }
}
