/**
  The Debian side of the repository (apt/apt.go): the `key: value` parser of a package's control file,
  the stanza appended to the Packages list, the metadata an upload records, and the filter that removes
  a package's stanza from the Packages list.
 */
module Apt {
  import opened Wrappers
  import Text
  import C = Catalog
  import P = CatalogProps

  // ---------------------------------------------------------------------------------------------
  // getControl (apt/apt.go:59-68)

  /** One line of the control file: with a ':' its text before the first ':' maps to the text up to the second, minus one leading space. */
  function ControlStep(d: map<string, string>, v: string): map<string, string> {
    var line := Text.Split(v, ':');
    if |line| > 1 then d[line[0] := Text.TrimPrefix(line[1], " ")] else d
  }

  /** The lines folded into `d` in order. */
  function ControlFrom(d: map<string, string>, lines: seq<string>): map<string, string>
    decreases |lines|
  {
    if lines == [] then d else ControlFrom(ControlStep(d, lines[0]), lines[1..])
  }

  /** The map getControl builds from the lines of a control file. */
  function ControlOf(lines: seq<string>): map<string, string> {
    ControlFrom(map[], lines)
  }

  /** getControl: the loop over the control file's lines fills `d`. */
  method GetControl(control: string) returns (d: map<string, string>)
    ensures d == ControlOf(Text.Split(control, '\n'))
  {
    d := map[];
    var lines := Text.Split(control, '\n');
    var i := 0;
    while i < |lines|
      invariant 0 <= i <= |lines|
      invariant ControlFrom(d, lines[i..]) == ControlOf(lines)
    {
      assert lines[i..][1..] == lines[i + 1..];
      var line := Text.Split(lines[i], ':');
      if |line| > 1 {
        d := d[line[0] := Text.TrimPrefix(line[1], " ")];
      }
      i := i + 1;
    }
  }

  /**
    A line `k:rest` with no ':' in k sets k to the text of rest before its next ':', minus one leading
    space; a line without ':' changes nothing.
   */
  lemma ControlLine(d: map<string, string>, k: string, rest: string)
    requires ':' !in k
    ensures ControlStep(d, k + ":" + rest) == d[k := Text.TrimPrefix(Text.Before(rest, ':'), " ")]
  {
    Text.SplitFirst(k, rest, ':');
    Text.SplitHead(rest, ':');
  }

  lemma ControlNoColon(d: map<string, string>, v: string)
    requires ':' !in v
    ensures ControlStep(d, v) == d
  {
  }

  lemma {:induction false} ControlFromAppend(d: map<string, string>, a: seq<string>, b: seq<string>)
    ensures ControlFrom(d, a + b) == ControlFrom(ControlFrom(d, a), b)
    decreases |a|
  {
    if a != [] {
      assert (a + b)[1..] == a[1..] + b;
      ControlFromAppend(ControlStep(d, a[0]), a[1..], b);
    } else {
      assert a + b == b;
    }
  }

  /** The line sets key k. */
  predicate Sets(v: string, k: string) {
    ':' in v && Text.Split(v, ':')[0] == k
  }

  /** A key is in the parsed map exactly when some line sets it (or it was already there). */
  lemma {:induction false} ControlKeys(d: map<string, string>, lines: seq<string>, k: string)
    ensures k in ControlFrom(d, lines) <==> k in d || exists i :: 0 <= i < |lines| && Sets(lines[i], k)
    decreases |lines|
  {
    if lines != [] {
      Text.SplitHead(lines[0], ':');
      ControlKeys(ControlStep(d, lines[0]), lines[1..], k);
      if exists i :: 0 <= i < |lines| && Sets(lines[i], k) {
        var i :| 0 <= i < |lines| && Sets(lines[i], k);
        if i > 0 { assert Sets(lines[1..][i - 1], k); }
      }
      if exists i :: 0 <= i < |lines[1..]| && Sets(lines[1..][i], k) {
        var i :| 0 <= i < |lines[1..]| && Sets(lines[1..][i], k);
        assert Sets(lines[i + 1], k);
      }
    }
  }

  /** A later line with the same key overrides an earlier one: the last line setting k decides its value. */
  lemma {:induction false} ControlLastWins(d: map<string, string>, lines: seq<string>, k: string, i: nat)
    requires i < |lines| && Sets(lines[i], k)
    requires forall j :: i < j < |lines| ==> !Sets(lines[j], k)
    ensures k in ControlFrom(d, lines)
    ensures ControlFrom(d, lines)[k] == Text.TrimPrefix(Text.Split(lines[i], ':')[1], " ")
    decreases |lines|
  {
    Text.SplitHead(lines[0], ':');
    if i == 0 {
      ControlUntouched(ControlStep(d, lines[0]), lines[1..], k);
    } else {
      forall j | i - 1 < j < |lines[1..]| ensures !Sets(lines[1..][j], k) {
        assert lines[1..][j] == lines[j + 1];
      }
      ControlLastWins(ControlStep(d, lines[0]), lines[1..], k, i - 1);
    }
  }

  lemma {:induction false} ControlUntouched(d: map<string, string>, lines: seq<string>, k: string)
    requires k in d
    requires forall j :: 0 <= j < |lines| ==> !Sets(lines[j], k)
    ensures k in ControlFrom(d, lines) && ControlFrom(d, lines)[k] == d[k]
    decreases |lines|
  {
    if lines != [] {
      Text.SplitHead(lines[0], ':');
      ControlUntouched(ControlStep(d, lines[0]), lines[1..], k);
    }
  }

  // ---------------------------------------------------------------------------------------------
  // writePackage (apt/apt.go:80-100)

  /** One line of a stanza. */
  function Entry(k: string, v: string): string {
    k + ": " + v + "\n"
  }

  /** The lines of the stanza for `meta`, in the order `order` visits its keys (Go's map order is unspecified). */
  function Body(meta: map<string, string>, order: seq<string>): string
    requires forall i :: 0 <= i < |order| ==> order[i] in meta
    decreases |order|
  {
    if order == [] then "" else Entry(order[0], meta[order[0]]) + Body(meta, order[1..])
  }

  /** The text writePackage appends to the Packages list: the stanza and the blank line ending it. */
  function PackageText(meta: map<string, string>, order: seq<string>): string
    requires forall i :: 0 <= i < |order| ==> order[i] in meta
  {
    Body(meta, order) + "\n"
  }

  /** writePackage: the loop over the metadata appends one line per key, then the blank line. */
  method WritePackage(meta: map<string, string>, order: seq<string>) returns (text: string)
    requires forall i :: 0 <= i < |order| ==> order[i] in meta
    requires forall k :: k in meta ==> k in order
    ensures text == PackageText(meta, order)
  {
    text := "";
    var i := 0;
    while i < |order|
      invariant 0 <= i <= |order|
      invariant text + Body(meta, order[i..]) == Body(meta, order)
    {
      assert order[i..][1..] == order[i + 1..];
      var k := order[i];
      assert Body(meta, order[i..]) == Entry(k, meta[k]) + Body(meta, order[i + 1..]);
      text := text + Entry(k, meta[k]);
      i := i + 1;
    }
    text := text + "\n";
  }

  /** The lines of the stanza, without their line ends. */
  function EntryLines(meta: map<string, string>, order: seq<string>): (r: seq<string>)
    requires forall i :: 0 <= i < |order| ==> order[i] in meta
    ensures |r| == |order|
    decreases |order|
  {
    if order == [] then [] else [order[0] + ": " + meta[order[0]]] + EntryLines(meta, order[1..])
  }

  /** Neither keys nor values hold ':' or a line end. */
  predicate Plain(meta: map<string, string>) {
    forall k :: k in meta ==> ':' !in k && '\n' !in k && ':' !in meta[k] && '\n' !in meta[k]
  }

  lemma {:induction false} SplitBody(meta: map<string, string>, order: seq<string>)
    requires forall i :: 0 <= i < |order| ==> order[i] in meta
    requires Plain(meta)
    ensures Text.Split(PackageText(meta, order), '\n') == EntryLines(meta, order) + ["", ""]
    decreases |order|
  {
    if order == [] {
      assert PackageText(meta, order) == [] + ['\n'] + [];
      Text.SplitFirst([], [], '\n');
    } else {
      SplitBody(meta, order[1..]);
      SplitBodyStep(meta, order);
      var line := order[0] + ": " + meta[order[0]];
      assert [line] + (EntryLines(meta, order[1..]) + ["", ""]) == [line] + EntryLines(meta, order[1..]) + ["", ""];
    }
  }

  /** The first entry of a stanza is its own line. */
  lemma SplitBodyStep(meta: map<string, string>, order: seq<string>)
    requires forall i :: 0 <= i < |order| ==> order[i] in meta
    requires Plain(meta) && order != []
    ensures var line := order[0] + ": " + meta[order[0]];
            && Text.Split(PackageText(meta, order), '\n') == [line] + Text.Split(PackageText(meta, order[1..]), '\n')
            && EntryLines(meta, order) == [line] + EntryLines(meta, order[1..])
  {
    var k := order[0];
    var line := k + ": " + meta[k];
    var rest := PackageText(meta, order[1..]);
    assert '\n' !in line by {
      assert line == k + ": " + meta[k];
    }
    assert PackageText(meta, order) == line + ['\n'] + rest;
    Text.SplitFirst(line, rest, '\n');
  }

  /** The entries of meta whose keys `order` visits. */
  function Restrict(meta: map<string, string>, order: seq<string>): map<string, string> {
    map k | k in meta && k in order :: meta[k]
  }

  /** A stanza line `k: v` sets k to v. */
  lemma EntryLine(d: map<string, string>, k: string, v: string)
    requires ':' !in k && ':' !in v
    ensures ControlStep(d, k + ": " + v) == d[k := v]
  {
    assert k + ": " + v == k + ":" + (" " + v);
    ControlLine(d, k, " " + v);
    assert Text.Before(" " + v, ':') == " " + v;
  }

  lemma {:induction false} ControlEntries(d: map<string, string>, meta: map<string, string>, order: seq<string>)
    requires forall i :: 0 <= i < |order| ==> order[i] in meta
    requires Plain(meta)
    ensures ControlFrom(d, EntryLines(meta, order)) == d + Restrict(meta, order)
    decreases |order|
  {
    if order != [] {
      var k := order[0];
      var lines := EntryLines(meta, order);
      assert lines[0] == k + ": " + meta[k] && lines[1..] == EntryLines(meta, order[1..]);
      EntryLine(d, k, meta[k]);
      ControlEntries(d[k := meta[k]], meta, order[1..]);
      RestrictStep(d, meta, order);
    } else {
      assert Restrict(meta, order) == map[];
    }
  }

  lemma RestrictStep(d: map<string, string>, meta: map<string, string>, order: seq<string>)
    requires order != [] && order[0] in meta
    ensures d[order[0] := meta[order[0]]] + Restrict(meta, order[1..]) == d + Restrict(meta, order)
  {
    forall x ensures x in Restrict(meta, order) <==> x in meta && (x == order[0] || x in order[1..]) {
      assert x in order <==> x == order[0] || x in order[1..] by {
        assert order == [order[0]] + order[1..];
      }
    }
  }

  /**
    Round trip: parsing the stanza writePackage writes for a map with no ':' or line end in its keys and
    values gives back the map, whatever order the keys are written in.
   */
  lemma PackageRoundTrip(meta: map<string, string>, order: seq<string>)
    requires forall k :: k in meta <==> k in order
    requires Plain(meta)
    ensures ControlOf(Text.Split(PackageText(meta, order), '\n')) == meta
  {
    var lines := EntryLines(meta, order);
    SplitBody(meta, order);
    ControlFromAppend(map[], lines, ["", ""]);
    var m := ControlFrom(map[], lines);
    assert ControlFrom(m, ["", ""]) == m by {
      ControlNoColon(m, "");
      assert ["", ""][1..] == [""] && [""][1..] == [];
    }
    ControlEntries(map[], meta, order);
    assert m == map[] + Restrict(meta, order);
    assert Restrict(meta, order) == meta;
  }

  // ---------------------------------------------------------------------------------------------
  // The metadata of an upload (apt/apt.go:119-126)

  const FixedKeys: set<string> := {"Filename", "Size", "SHA512", "SHA256", "SHA1", "MD5sum", "type"}

  /**
    The control fields of the package with the fields Upload computes put over them. `size` is what
    getSize returns ("" when the blob cannot be opened); the digests are inputs.
   */
  function UploadMeta(control: string, filename: string, size: string,
                      sha512: string, sha256: string, sha1: string, md5: string): (meta: map<string, string>)
    ensures FixedKeys <= meta.Keys
    ensures meta["Filename"] == filename && meta["Size"] == size && meta["SHA512"] == sha512
    ensures meta["SHA256"] == sha256 && meta["SHA1"] == sha1 && meta["MD5sum"] == md5 && meta["type"] == "apt"
    ensures forall k :: k !in FixedKeys ==>
              (k in meta <==> k in ControlOf(Text.Split(control, '\n'))) &&
              (k in meta ==> meta[k] == ControlOf(Text.Split(control, '\n'))[k])
  {
    ControlOf(Text.Split(control, '\n'))["Filename" := filename]["Size" := size]["SHA512" := sha512]
      ["SHA256" := sha256]["SHA1" := sha1]["MD5sum" := md5]["type" := "apt"]
  }

  /**
    The record db.Write makes of a new apt upload (apt/apt.go:128) under its md5: Info reports type "apt",
    the md5 and the file name, whatever the control file says.
   */
  lemma UploadRecord(s: C.State, owner: string, control: string, filename: string, size: string,
                     sha512: string, sha256: string, sha1: string, md5: string, now: C.Time, blob: Option<nat>)
    requires C.Valid(s)
    requires md5 != "" && md5 !in s.files && filename != ""
    ensures C.Write(s, owner, md5, filename, [UploadMeta(control, filename, size, sha512, sha256, sha1, md5)],
                    now, blob).Some?
    ensures var meta := UploadMeta(control, filename, size, sha512, sha256, sha1, md5);
            var info := C.Info(C.Write(s, owner, md5, filename, [meta], now, blob).value, md5);
            && "type" in info && info["type"] == "apt" && "MD5sum" in info && info["MD5sum"] == md5
            && "Filename" in info && info["Filename"] == filename && "SHA256" in info && info["SHA256"] == sha256
  {
    var meta := UploadMeta(control, filename, size, sha512, sha256, sha1, md5);
    P.WriteOneInfo(s, owner, md5, filename, meta, now, blob);
    var base := C.BaseAttrs(filename, now, blob);
    P.Overlay(base, meta, "type");
    P.Overlay(base, meta, "MD5sum");
    P.Overlay(base, meta, "Filename");
    P.Overlay(base, meta, "SHA256");
  }

  // ---------------------------------------------------------------------------------------------
  // The stanza filter of deleteInfo (apt/apt.go:169-207)

  /** The variables of the loop of deleteInfo. */
  datatype Scan = Scan(newlist: string, block: string, changed: bool, skip: bool)

  const Start := Scan("", "", false, false)

  /** One line of the Packages list. */
  function Step(st: Scan, line: string, hash: string): Scan {
    if |line| != 0 && st.skip then st
    else if |line| == 0 then
      if |st.block| != 0 then Scan(st.newlist + st.block + "\n", "", st.changed, false)
      else st.(skip := false)
    else if Text.HasSuffix(line, hash) then Scan(st.newlist, "", true, true)
    else st.(block := st.block + line + "\n")
  }

  function Run(st: Scan, lines: seq<string>, hash: string): Scan
    decreases |lines|
  {
    if lines == [] then st else Run(Step(st, lines[0], hash), lines[1..], hash)
  }

  /**
    What deleteInfo does with the Packages list: None when it leaves the file alone (an empty list, or
    no stanza dropped), otherwise the new list it writes.
   */
  function Filtered(list: seq<string>, hash: string): Option<string> {
    if |list| == 0 then None
    else
      var st := Run(Start, list, hash);
      if st.changed then Some(st.newlist) else None
  }

  /** deleteInfo on the lines of the Packages list. */
  method DeleteInfo(list: seq<string>, hash: string) returns (rewritten: Option<string>)
    ensures rewritten == Filtered(list, hash)
  {
    if |list| == 0 {
      return None;
    }
    var newlist, block := "", "";
    var changed, skip := false, false;
    var i := 0;
    while i < |list|
      invariant 0 <= i <= |list|
      invariant Run(Scan(newlist, block, changed, skip), list[i..], hash) == Run(Start, list, hash)
    {
      assert list[i..][1..] == list[i + 1..];
      var line := list[i];
      if |line| != 0 && skip {
      } else if |line| == 0 {
        skip := false;
        if |block| != 0 {
          newlist := newlist + block + "\n";
          block := "";
        }
      } else if |line| != 0 && !skip {
        if Text.HasSuffix(line, hash) {
          block := "";
          skip := true;
          changed := true;
        } else {
          block := block + line + "\n";
        }
      }
      i := i + 1;
    }
    rewritten := if changed then Some(newlist) else None;
  }

  // The reference description: the list as stanzas.

  /** A stanza: lines none of which is blank. */
  predicate Solid(st: seq<string>) {
    forall i :: 0 <= i < |st| ==> st[i] != ""
  }

  /** No line of the stanza ends with the hash. */
  predicate Keeps(st: seq<string>, hash: string) {
    forall i :: 0 <= i < |st| ==> !Text.HasSuffix(st[i], hash)
  }

  /** The stanza as text, each line ended. */
  function Block(st: seq<string>): (r: string)
    ensures st != [] ==> r != []
    decreases |st|
  {
    if st == [] then "" else st[0] + "\n" + Block(st[1..])
  }

  /** A list laid out as stanzas, each followed by one blank line (an empty stanza is just a blank line). */
  function Layout(ss: seq<seq<string>>): seq<string>
    decreases |ss|
  {
    if ss == [] then [] else ss[0] + [""] + Layout(ss[1..])
  }

  /** The list the filter should write: every non-empty stanza it keeps, followed by one blank line. */
  function Emit(ss: seq<seq<string>>, hash: string): string
    decreases |ss|
  {
    if ss == [] then ""
    else (if ss[0] != [] && Keeps(ss[0], hash) then Block(ss[0]) + "\n" else "") + Emit(ss[1..], hash)
  }

  lemma {:induction false} RunAppend(st: Scan, a: seq<string>, b: seq<string>, hash: string)
    ensures Run(st, a + b, hash) == Run(Run(st, a, hash), b, hash)
    decreases |a|
  {
    if a != [] {
      assert (a + b)[1..] == a[1..] + b;
      RunAppend(Step(st, a[0], hash), a[1..], b, hash);
    } else {
      assert a + b == b;
    }
  }

  /** Within a stanza: the lines gather into the block until a line ends with the hash, and then are skipped. */
  lemma {:induction false} RunLines(newlist: string, block: string, changed: bool, st: seq<string>, hash: string)
    requires Solid(st)
    ensures Run(Scan(newlist, block, changed, false), st, hash) ==
            if Keeps(st, hash) then Scan(newlist, block + Block(st), changed, false)
            else Scan(newlist, "", true, true)
    decreases |st|
  {
    if st != [] {
      if Text.HasSuffix(st[0], hash) {
        RunSkipped(Scan(newlist, "", true, true), st[1..], hash);
      } else {
        assert Solid(st[1..]);
        RunLines(newlist, block + st[0] + "\n", changed, st[1..], hash);
        assert block + st[0] + "\n" + Block(st[1..]) == block + Block(st);
        if !Keeps(st[1..], hash) {
          var i :| 0 <= i < |st[1..]| && Text.HasSuffix(st[1..][i], hash);
          assert Text.HasSuffix(st[i + 1], hash);
        }
        if !Keeps(st, hash) {
          var i :| 0 <= i < |st| && Text.HasSuffix(st[i], hash);
          assert i > 0 && Text.HasSuffix(st[1..][i - 1], hash);
        }
      }
    }
  }

  lemma {:induction false} RunSkipped(st: Scan, lines: seq<string>, hash: string)
    requires st.skip && Solid(lines)
    ensures Run(st, lines, hash) == st
    decreases |lines|
  {
    if lines != [] {
      RunSkipped(st, lines[1..], hash);
    }
  }

  /** A stanza and its blank line: the stanza's text is appended exactly when it is kept and not empty. */
  lemma StanzaRun(newlist: string, changed: bool, st: seq<string>, hash: string)
    requires Solid(st)
    ensures Run(Scan(newlist, "", changed, false), st + [""], hash) ==
            Scan(newlist + (if st != [] && Keeps(st, hash) then Block(st) + "\n" else ""), "",
                 changed || !Keeps(st, hash), false)
  {
    RunAppend(Scan(newlist, "", changed, false), st, [""], hash);
    RunLines(newlist, "", changed, st, hash);
    assert "" + Block(st) == Block(st);
  }

  /** Some stanza of ss has a line ending with the hash. */
  predicate Drops(ss: seq<seq<string>>, hash: string) {
    exists i :: 0 <= i < |ss| && !Keeps(ss[i], hash)
  }

  lemma {:induction false} LayoutRun(newlist: string, changed: bool, ss: seq<seq<string>>, hash: string)
    requires forall i :: 0 <= i < |ss| ==> Solid(ss[i])
    ensures Run(Scan(newlist, "", changed, false), Layout(ss), hash) ==
            Scan(newlist + Emit(ss, hash), "", changed || Drops(ss, hash), false)
    decreases |ss|
  {
    if ss == [] {
      assert newlist + "" == newlist;
    } else {
      var st := ss[0];
      var kept := if st != [] && Keeps(st, hash) then Block(st) + "\n" else "";
      assert Layout(ss) == (st + [""]) + Layout(ss[1..]);
      RunAppend(Scan(newlist, "", changed, false), st + [""], Layout(ss[1..]), hash);
      StanzaRun(newlist, changed, st, hash);
      LayoutRun(newlist + kept, changed || !Keeps(st, hash), ss[1..], hash);
      assert Emit(ss, hash) == kept + Emit(ss[1..], hash);
      assert newlist + kept + Emit(ss[1..], hash) == newlist + Emit(ss, hash);
      DropsCons(ss, hash);
    }
  }

  lemma DropsCons(ss: seq<seq<string>>, hash: string)
    requires ss != []
    ensures Drops(ss, hash) <==> !Keeps(ss[0], hash) || Drops(ss[1..], hash)
  {
    if Drops(ss[1..], hash) {
      var i :| 0 <= i < |ss[1..]| && !Keeps(ss[1..][i], hash);
      assert !Keeps(ss[i + 1], hash);
    }
    if Drops(ss, hash) && Keeps(ss[0], hash) {
      var i :| 0 <= i < |ss| && !Keeps(ss[i], hash);
      assert i > 0 && !Keeps(ss[1..][i - 1], hash);
    }
  }

  /**
    The filter against the stanza description. For a list made of stanzas each ended by a blank line,
    then an unterminated last stanza `tail`: the new list holds the kept non-empty stanzas in order, each
    followed by exactly one blank line, and never the unterminated one; it is written exactly when some
    stanza, the unterminated one included, has a line ending with the hash.
   */
  lemma FilterStanzas(ss: seq<seq<string>>, tail: seq<string>, hash: string)
    requires forall i :: 0 <= i < |ss| ==> Solid(ss[i])
    requires Solid(tail)
    requires Layout(ss) + tail != []
    ensures Filtered(Layout(ss) + tail, hash) ==
            if Drops(ss + [tail], hash) then Some(Emit(ss, hash)) else None
  {
    RunAppend(Start, Layout(ss), tail, hash);
    LayoutRun("", false, ss, hash);
    RunLines(Emit(ss, hash), "", Drops(ss, hash), tail, hash);
    assert "" + Emit(ss, hash) == Emit(ss, hash);
    forall i | 0 <= i < |ss| ensures (ss + [tail])[i] == ss[i] {}
    assert (ss + [tail])[|ss|] == tail;
  }

  /** Every list of lines is laid out so: its stanzas, split at the blank lines, then the unterminated rest. */
  lemma {:induction false} LayoutExists(lines: seq<string>)
    ensures exists ss: seq<seq<string>>, tail :: Laid(lines, ss, tail)
    decreases |lines|
  {
    if "" !in lines {
      assert Laid(lines, [], lines);
    } else {
      var j := FirstBlank(lines);
      LayoutExists(lines[j + 1..]);
      var ss: seq<seq<string>>, tail :| Laid(lines[j + 1..], ss, tail);
      LaidCons(lines, j, ss, tail);
    }
  }

  /** lines is laid out as the stanzas ss, each ended by a blank line, then the unterminated stanza tail. */
  predicate Laid(lines: seq<string>, ss: seq<seq<string>>, tail: seq<string>) {
    (forall i :: 0 <= i < |ss| ==> Solid(ss[i])) && Solid(tail) && lines == Layout(ss) + tail
  }

  lemma LaidCons(lines: seq<string>, j: nat, ss: seq<seq<string>>, tail: seq<string>)
    requires j < |lines| && lines[j] == "" && Solid(lines[..j])
    requires Laid(lines[j + 1..], ss, tail)
    ensures Laid(lines, [lines[..j]] + ss, tail)
  {
    var all := [lines[..j]] + ss;
    LayoutCons(lines[..j], ss);
    calc {
      lines;
      lines[..j] + [""] + lines[j + 1..];
      lines[..j] + [""] + (Layout(ss) + tail);
      (lines[..j] + [""] + Layout(ss)) + tail;
      Layout(all) + tail;
    }
    forall i | 0 <= i < |all| ensures Solid(all[i]) {
      if i > 0 { assert all[i] == ss[i - 1]; }
    }
  }

  lemma LayoutCons(st: seq<string>, ss: seq<seq<string>>)
    ensures Layout([st] + ss) == st + [""] + Layout(ss)
  {
    assert ([st] + ss)[1..] == ss;
  }

  function FirstBlank(lines: seq<string>): (j: nat)
    requires "" in lines
    ensures j < |lines| && lines[j] == "" && Solid(lines[..j])
  {
    if lines[0] == "" then 0
    else
      var j := FirstBlank(lines[1..]);
      assert lines[..j + 1] == [lines[0]] + lines[1..][..j];
      j + 1
  }

  /** An empty list is left alone, and a list with no line ending with the hash is not rewritten. */
  lemma FilterUnchanged(list: seq<string>, hash: string)
    requires forall i :: 0 <= i < |list| ==> list[i] == "" || !Text.HasSuffix(list[i], hash)
    ensures Filtered(list, hash) == None
  {
    if list != [] {
      LayoutExists(list);
      var ss: seq<seq<string>>, tail :| Laid(list, ss, tail);
      FilterStanzas(ss, tail, hash);
      if Drops(ss + [tail], hash) {
        var i :| 0 <= i < |ss + [tail]| && !Keeps((ss + [tail])[i], hash);
        var k :| 0 <= k < |(ss + [tail])[i]| && Text.HasSuffix((ss + [tail])[i][k], hash);
        LayoutMember(ss, tail, i, k);
      }
    }
  }

  /** Each line of a stanza is a (non-blank) line of the list. */
  lemma {:induction false} LayoutMember(ss: seq<seq<string>>, tail: seq<string>, i: nat, k: nat)
    requires i < |ss + [tail]| && k < |(ss + [tail])[i]|
    ensures (ss + [tail])[i][k] in Layout(ss) + tail
    decreases |ss|
  {
    if i < |ss| {
      if i == 0 {
        assert Layout(ss)[k] == ss[0][k];
      } else {
        assert (ss + [tail])[i] == (ss[1..] + [tail])[i - 1];
        LayoutMember(ss[1..], tail, i - 1, k);
        assert Layout(ss) + tail == ss[0] + [""] + (Layout(ss[1..]) + tail);
      }
    } else {
      assert (ss + [tail])[i] == tail;
    }
  }
}
