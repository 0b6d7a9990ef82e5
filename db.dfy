/**
  The store of db/db.go as an object: one field per top-level bolt bucket and one method per exported
  function. A method works on a copy of the buckets, the way its db.Update or db.View callback works
  inside a transaction, and commits the copy at the end (a rolled-back transaction commits nothing).
  Each method is proved to have exactly the effect and the result of the Catalog function of the same
  name, about which CatalogProps proves what the store promises.
 */
module Db {
  import opened Wrappers
  import Text
  import C = Catalog

  /**
    The attributes Write gives a new record (db/db.go:73-88): date, name, size when the blob could be
    opened, then every option map in call order.
   */
  method NewAttrs(value: string, now: C.Time, size: Option<nat>, options: seq<map<string, string>>)
    returns (attrs: map<string, string>)
    ensures attrs == C.ApplyOptions(C.BaseAttrs(value, now, size), options)
  {
    attrs := map[C.DateKey := C.Stamp(now), C.NameKey := value];
    if size.Some? {
      attrs := attrs[C.SizeKey := Text.Decimal(size.value)];
    }
    assert attrs == C.BaseAttrs(value, now, size);
    // Writing optional parameters for file
    attrs := PutOptions(attrs, options);
  }

  /** The loop of Write over its option maps (db/db.go:84-88): each pair Put in call order. */
  method PutOptions(base: map<string, string>, options: seq<map<string, string>>) returns (attrs: map<string, string>)
    ensures attrs == C.ApplyOptions(base, options)
  {
    attrs := base;
    var i := 0;
    while i < |options|
      invariant 0 <= i <= |options|
      invariant attrs == C.ApplyOptions(base, options[..i])
    {
      OptionsPrefix(base, options, i);
      attrs := attrs + (options[i] - {""});
      i := i + 1;
    }
    assert options[..|options|] == options;
  }

  lemma OptionsPrefix(base: map<string, string>, options: seq<map<string, string>>, i: nat)
    requires i < |options|
    ensures C.ApplyOptions(base, options[..i + 1]) == C.ApplyOptions(base, options[..i]) + (options[i] - {""})
  {
    ghost var done := options[..i + 1];
    assert done[..i] == options[..i] && done[i] == options[i];
  }

  /** The ForEach of Search over one index bucket (db/db.go:200-203): every hash it lists is mapped to `name`. */
  method Visit(list: map<string, string>, b: map<C.Time, string>, name: string) returns (r: map<string, string>)
    ensures forall h :: h in r <==> h in list || h in b.Values
    ensures forall h :: h in r ==> r[h] == if h in b.Values then name else list[h]
  {
    r := list;
    var entries := b.Keys;
    ghost var seen: set<string> := {};
    while entries != {}
      invariant entries <= b.Keys
      invariant seen <= b.Values
      invariant forall t :: t in b && t !in entries ==> b[t] in seen
      invariant forall h :: h in r <==> h in list || h in seen
      invariant forall h :: h in r ==> r[h] == if h in seen then name else list[h]
      decreases |entries|
    {
      var t :| t in entries;
      r := r[b[t] := name];
      seen := seen + {b[t]};
      entries := entries - {t};
    }
    assert seen == b.Values;
  }

  /** The owner step of Write (db/db.go:93-103): `o` joins the owner bucket, created if need be. */
  method AttachOwner(files: map<string, C.Record>, key: string, o: string) returns (r: map<string, C.Record>)
    requires o != ""
    ensures r == C.AddOwnerTo(files, key, o)
  {
    r := files;
    if key in files {
      var rec := files[key];
      if rec.owners.Some? {
        r := files[key := rec.(owners := Some(rec.owners.value + {o}))];
      } else if C.OwnerKey !in rec.attrs {
        r := files[key := rec.(owners := Some({o}))];
      }
    }
  }

  /** The ForEach of Delete over one index bucket (db/db.go:131-136): the entries naming `hash` go. */
  method DropEntries(entries: map<C.Time, string>, hash: string) returns (r: map<C.Time, string>)
    ensures r == C.Drop(entries, hash)
  {
    r := entries;
    var todo := entries.Keys;
    while todo != {}
      invariant todo <= entries.Keys && r.Keys <= entries.Keys
      invariant forall t :: t in entries ==> (t in r <==> t in todo || entries[t] != hash)
      invariant forall t :: t in r ==> r[t] == entries[t]
      decreases |todo|
    {
      var t :| t in todo;
      if entries[t] == hash {
        r := r - {t};
      }
      todo := todo - {t};
    }
  }

  /** The users step of Write (db/db.go:66-69): the files bucket of `o` is created and filled only if missing. */
  method UserStep(users: map<string, C.User>, o: string, key: string, value: string)
    returns (r: map<string, C.User>)
    ensures r == C.AddUserFile(users, o, key, value)
  {
    var u := if o in users then users[o] else C.User(None, None);
    if u.files.None? {
      u := u.(files := Some(C.Put(map[], key, value)));
    }
    r := users[o := u];
  }

  /**
    The record step of Write (db/db.go:72-91): a new hash gets its record and its index entry; false when
    the index bucket of an empty name is nil and the Put on it panics.
   */
  method RecordStep(files: map<string, C.Record>, index: map<string, map<C.Time, string>>, key: string,
                    value: string, options: seq<map<string, string>>, now: C.Time, size: Option<nat>)
    returns (ok: bool, files': map<string, C.Record>, index': map<string, map<C.Time, string>>)
    ensures ok <==> !(key != "" && key !in files && value == "")
    ensures ok && key != "" && key !in files ==>
              files' == files[key := C.NewRecord(value, now, size, options)] &&
              index' == index[value := C.Entries(index, value)[now := key]]
    ensures ok && !(key != "" && key !in files) ==> files' == files && index' == index
  {
    files', index' := files, index;
    ok := true;
    if key != "" && key !in files {
      var attrs := NewAttrs(value, now, size, options);
      files' := files[key := C.Record(attrs, None)];
      // Adding search index for files: an empty name leaves a nil bucket, and the Put on it panics
      if value == "" {
        ok := false;
        return;
      }
      var b := if value in index then index[value] else map[];
      index' := index[value := b[now := key]];
    }
  }

  /**
    The transaction of Write (db/db.go:59-104) on a snapshot `s` of the buckets: None when it panics, and
    otherwise the buckets it commits.
   */
  method WriteTx(s: C.State, owner: string, key: string, value: string,
                 options: seq<map<string, string>>, now: C.Time, size: Option<nat>) returns (r: Option<C.State>)
    requires C.Valid(s)
    ensures r == C.Write(s, owner, key, value, options, now, size)
  {
    var o := if |owner| == 0 then C.Public else owner;
    assert o == C.Owner(owner);
    // Associating files with user
    var users := UserStep(s.users, o, key, value);
    // Creating new record about file
    var ok, files, index := RecordStep(s.files, s.index, key, value, options, now, size);
    if !ok {
      return None;
    }
    // Adding owners to files
    files := AttachOwner(files, key, o);
    r := Some(C.State(files, index, users, s.tokens, s.authid));
  }

  /** The transaction of Delete (db/db.go:107-146) on a copy of the buckets. */
  method DeleteTx(s: C.State, owner: string, key: string) returns (t: C.State, remains: int)
    requires C.Valid(s)
    ensures (t, remains) == C.Delete(s, owner, key)
  {
    var filename: Option<string> := None;

    // Deleting file association with user
    var users := s.users;
    if owner in users && users[owner].files.Some? {
      var fs := users[owner].files.value;
      if key in fs {
        filename := Some(fs[key]);
      }
      users := users[owner := users[owner].(files := Some(fs - {key}))];
    }
    assert filename == C.RecordedName(s, owner, key);

    // Deleting user association with file
    var files := s.files;
    remains := 0;
    if key in files && files[key].owners.Some? {
      var os := files[key].owners.value;
      files := files[key := files[key].(owners := Some(os - {owner}))];
      remains := |os| - 1;
    }

    // Removing indexes and file only if no file owners left
    var index := s.index;
    if remains <= 0 {
      if filename.Some? && filename.value in index {
        var b := DropEntries(index[filename.value], key);
        index := index[filename.value := b];
      }
      files := files - {key};
    }
    t := C.State(files, index, users, s.tokens, s.authid);
  }

  /** The cursor loop of Search (db/db.go:197-206) over the index buckets. */
  method SearchIndex(index: map<string, map<C.Time, string>>, query: string) returns (list: map<string, string>)
    ensures C.SearchOver(index, C.Matching(index, query), list)
  {
    list := map[];
    var todo := C.Matching(index, query);
    ghost var done: set<string> := {};
    SearchLoopStart(index, query);
    while todo != {}
      invariant SearchLoop(index, query, done, todo, list)
      decreases |todo|
    {
      Text.LeastExists(todo);
      var k :| k in todo && forall m :: m in todo ==> Text.LexLe(k, m);
      assert k in index;
      ghost var before := list;
      list := Visit(list, index[k], k);
      SearchLoopStep(index, query, done, todo, k, before, list);
      done := done + {k};
      todo := todo - {k};
    }
    assert done == C.Matching(index, query);
  }

  lemma SearchLoopStart(index: map<string, map<C.Time, string>>, query: string)
    ensures SearchLoop(index, query, {}, C.Matching(index, query), map[])
  {
  }

  /** The invariant of the cursor loop: `done` are the buckets visited, all before the `todo` ones. */
  ghost predicate SearchLoop(index: map<string, map<C.Time, string>>, query: string, done: set<string>,
                             todo: set<string>, list: map<string, string>) {
    && todo !! done && todo + done == C.Matching(index, query)
    && (forall a, b :: a in done && b in todo ==> Text.LexLe(a, b))
    && C.SearchOver(index, done, list)
  }

  lemma SearchLoopStep(index: map<string, map<C.Time, string>>, query: string, done: set<string>,
                       todo: set<string>, k: string, before: map<string, string>, after: map<string, string>)
    requires SearchLoop(index, query, done, todo, before)
    requires k in todo && forall m :: m in todo ==> Text.LexLe(k, m)
    requires forall h :: h in after <==> h in before || h in index[k].Values
    requires forall h :: h in after ==> after[h] == if h in index[k].Values then k else before[h]
    ensures SearchLoop(index, query, done + {k}, todo - {k}, after)
  {
    C.SearchOverStep(index, done, k, before, after);
    assert (todo - {k}) + (done + {k}) == todo + done;
  }

  class Store {
    var files: map<string, C.Record>
    var index: map<string, map<C.Time, string>>
    var users: map<string, C.User>
    var tokens: map<string, C.Token>
    var authid: map<string, string>

    /** The buckets as one value. */
    function State(): C.State
      reads this
    {
      C.State(files, index, users, tokens, authid)
    }

    ghost predicate Valid()
      reads this
    {
      C.Valid(State())
    }

    /** initdb on a new database file: the five buckets, empty. */
    constructor ()
      ensures Valid() && State() == C.Empty
    {
      files, index, users, tokens, authid := map[], map[], map[], map[], map[];
    }

    /**
      Write (db/db.go:58-105). The clock reading `now` and the blob `size` (None when the blob cannot be
      opened) are inputs. `ok` is false when the transaction panicked and was rolled back.
     */
    method Write(owner: string, key: string, value: string,
                 options: seq<map<string, string>>, now: C.Time, size: Option<nat>) returns (ok: bool)
      requires Valid()
      modifies this
      ensures Valid()
      ensures ok == C.Write(old(State()), owner, key, value, options, now, size).Some?
      ensures State() == if ok then C.Write(old(State()), owner, key, value, options, now, size).value
                         else old(State())
    {
      var tx := WriteTx(State(), owner, key, value, options, now, size);
      if tx.None? {
        ok := false;
        return;
      }
      files, index, users := tx.value.files, tx.value.index, tx.value.users;
      ok := true;
    }

    /** Delete (db/db.go:107-146): `remains` is the owner count before the delete, minus one. */
    method Delete(owner: string, key: string) returns (remains: int)
      requires Valid()
      modifies this
      ensures Valid()
      ensures (State(), remains) == C.Delete(old(State()), owner, key)
    {
      var t;
      t, remains := DeleteTx(State(), owner, key);
      files, index, users := t.files, t.index, t.users;
    }

    /** Read (db/db.go:148-158). */
    method Read(key: string) returns (val: string)
      ensures val == C.Read(State(), key)
    {
      val := "";
      if key in files {
        var b := files[key];
        if C.NameKey in b.attrs {
          val := b.attrs[C.NameKey];
        }
      }
    }

    /** List (db/db.go:160-173): the ForEach over the records fills `list`. */
    method List() returns (list: map<string, string>)
      ensures list == C.List(State())
    {
      list := map[];
      var todo := files.Keys;
      while todo != {}
        invariant todo <= files.Keys
        invariant forall h :: h in list <==> h in files && h !in todo && C.NameKey in files[h].attrs
        invariant forall h :: h in list ==> list[h] == files[h].attrs[C.NameKey]
        decreases |todo|
      {
        var k :| k in todo;
        if C.NameKey in files[k].attrs {
          list := list[k := files[k].attrs[C.NameKey]];
        }
        todo := todo - {k};
      }
    }

    /** Info (db/db.go:175-188): the ForEach over the record fills `list`, then `owner` is forced. */
    method Info(hash: string) returns (list: map<string, string>)
      ensures list == C.Info(State(), hash)
    {
      list := map[];
      if hash in files {
        var b := files[hash];
        var todo := b.attrs.Keys;
        while todo != {}
          invariant todo <= b.attrs.Keys
          invariant forall k :: k in list <==> k in b.attrs && k !in todo
          invariant forall k :: k in list ==> list[k] == b.attrs[k]
          decreases |todo|
        {
          var k :| k in todo;
          list := list[k := b.attrs[k]];
          todo := todo - {k};
        }
        // ForEach also visits the nested owner bucket, with a nil value
        if b.owners.Some? {
          list := list[C.OwnerKey := ""];
        }
        assert forall k :: k != C.OwnerKey ==> (k in list <==> k in b.attrs);
      }
      list := list[C.OwnerKey := C.Public];
    }

    /**
      Search (db/db.go:194-208): the cursor visits the index buckets whose names have the prefix
      `query` in key order, and every hash listed is mapped to the name being visited.
     */
    method Search(query: string) returns (list: map<string, string>)
      ensures C.IsSearch(State(), query, list)
    {
      list := SearchIndex(index, query);
    }

    /** LastHash (db/db.go:210-219): the value at the cursor's last key of the name's bucket. */
    method LastHash(name: string) returns (hash: string)
      ensures hash == C.LastHash(State(), name)
    {
      hash := "";
      if name in index {
        var b := index[name];
        if b != map[] {
          hash := b[C.MaxTime(b.Keys)];
        }
      }
    }

    /** RegisterUser (db/db.go:221-229). */
    method RegisterUser(name: string, key: string)
      requires Valid()
      modifies this
      ensures Valid()
      ensures State() == C.RegisterUser(old(State()), name, key)
    {
      if name != "" && name !in users {
        users := users[name := C.User(Some(key), None)];
      }
    }

    /** UserKey (db/db.go:231-241). */
    method UserKey(name: string) returns (key: string)
      ensures key == C.UserKey(State(), name)
    {
      key := "";
      if name in users && users[name].key.Some? {
        key := users[name].key.value;
      }
    }

    /** SaveToken (db/db.go:243-252), at clock reading `now`. */
    method SaveToken(name: string, token: string, now: C.Time)
      requires Valid()
      modifies this
      ensures Valid()
      ensures State() == C.SaveToken(old(State()), name, token, now)
    {
      if token != "" {
        tokens := tokens[token := C.Token(name, now)];
      }
    }

    /** CheckToken (db/db.go:254-273); `digest` is the sha256 hex digest, `now` the clock reading. */
    method CheckToken(token: string, now: C.Time, digest: string -> string) returns (name: string)
      ensures name == C.CheckToken(State(), token, now, digest)
    {
      var hash := digest(token);
      name := "";
      if hash in tokens {
        var b := tokens[hash];
        if b.issued + C.TokenTtl < now {
          return;
        }
        name := b.name;
      }
    }

    /** SaveAuthID (db/db.go:275-280). */
    method SaveAuthID(name: string, token: string)
      requires Valid()
      modifies this
      ensures Valid()
      ensures State() == C.SaveAuthID(old(State()), name, token)
    {
      if token != "" {
        authid := authid[token := name];
      }
    }

    /** CheckAuthID (db/db.go:282-292). */
    method CheckAuthID(token: string) returns (name: string)
      requires Valid()
      modifies this
      ensures Valid()
      ensures (State(), name) == C.CheckAuthID(old(State()), token)
    {
      name := "";
      if token in authid {
        name := authid[token];
        authid := authid - {token};
      }
    }

    /** CheckOwner (db/db.go:294-305). */
    method CheckOwner(owner: string, hash: string) returns (res: bool)
      ensures res == C.CheckOwner(State(), owner, hash)
    {
      res := false;
      if hash in files && files[hash].owners.Some? && owner in files[hash].owners.value {
        res := true;
      }
    }

    /** AlterDB (db/db.go:42-56): the ForEach over the records moves a plain `owner` value into an owner bucket. */
    method AlterDB()
      requires Valid()
      modifies this
      ensures Valid()
      ensures State() == C.AlterDB(old(State()))
    {
      var out := files;
      var todo := files.Keys;
      while todo != {}
        invariant todo <= files.Keys && out.Keys == files.Keys
        invariant forall h :: h in files ==> out[h] == if h in todo then files[h] else C.Migrate(files[h])
        decreases |todo|
      {
        var k :| k in todo;
        var b := out[k];
        if C.OwnerKey in b.attrs {
          var value := b.attrs[C.OwnerKey];
          var owners: set<string> := {};
          if value != "" {
            owners := {value};
          }
          out := out[k := C.Record(b.attrs - {C.OwnerKey}, Some(owners))];
        }
        todo := todo - {k};
      }
      files := out;
    }
  }
}
