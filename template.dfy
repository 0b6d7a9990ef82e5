/**
  The container-template side of the repository (template/template.go): the reading of a template's
  `key = value` config, whose lookup keys are the very fields it overwrites, and the archive name the
  upload records.
 */
module Template {
  import opened Wrappers
  import Text

  /** The struct getConf fills. */
  datatype Template = Template(name: string, parent: string, version: string, arch: string, hash: string)

  /** The four fields the config sets. */
  datatype Field = Arch | Name | Parent | Version

  function Get(t: Template, f: Field): string {
    match f
    case Arch => t.arch
    case Name => t.name
    case Parent => t.parent
    case Version => t.version
  }

  function Set(t: Template, f: Field, v: string): (r: Template)
    ensures Get(r, f) == v && r.hash == t.hash
    ensures forall g :: g != f ==> Get(r, g) == Get(t, g)
  {
    match f
    case Arch => t.(arch := v)
    case Name => t.(name := v)
    case Parent => t.(parent := v)
    case Version => t.(version := v)
  }

  /** The config key a field waits for before any line has set it. */
  function Placeholder(f: Field): string {
    match f
    case Arch => "lxc.arch"
    case Name => "lxc.utsname"
    case Parent => "subutai.parent"
    case Version => "subutai.template.version"
  }

  /** The template before the config is read (template/template.go:55-61). */
  function Initial(hash: string): (t: Template)
    ensures t.hash == hash && forall f :: Get(t, f) == Placeholder(f)
  {
    Template("lxc.utsname", "subutai.parent", "subutai.template.version", "lxc.arch", hash)
  }

  /** The key of a config line: its text before the first '=', trimmed of spaces. */
  function Key(v: string): string {
    Text.Trim(Text.Split(v, '=')[0], ' ')
  }

  /** The field a key selects: the first, in the order arch, name, parent, version, whose current value is the key. */
  function Match(t: Template, k: string): (r: Option<Field>)
    ensures r.Some? ==> Get(t, r.value) == k
    ensures r.Some? ==> forall g :: Before(g, r.value) ==> Get(t, g) != k
    ensures r.None? ==> forall g :: Get(t, g) != k
  {
    if t.arch == k then Some(Arch)
    else if t.name == k then Some(Name)
    else if t.parent == k then Some(Parent)
    else if t.version == k then Some(Version)
    else None
  }

  /** The order in which the cases of the switch are tried. */
  predicate Before(g: Field, f: Field) {
    Rank(g) < Rank(f)
  }

  function Rank(f: Field): nat {
    match f
    case Arch => 0
    case Name => 1
    case Parent => 2
    case Version => 3
  }

  /**
    One line of the config: the selected field takes the text between the first and the second '=',
    trimmed of spaces. None when the line selects a field but has no '=' (line[1] is out of range and the
    handler panics).
   */
  function Step(t: Template, v: string): Option<Template> {
    var line := Text.Split(v, '=');
    match Match(t, Key(v))
    case None => Some(t)
    case Some(f) => if |line| > 1 then Some(Set(t, f, Text.Trim(line[1], ' '))) else None
  }

  function ConfFrom(t: Template, lines: seq<string>): Option<Template>
    decreases |lines|
  {
    if lines == [] then Some(t)
    else match Step(t, lines[0])
         case None => None
         case Some(t') => ConfFrom(t', lines[1..])
  }

  /** What getConf returns for a template's hash and config: None when it panics. */
  function ConfOf(hash: string, config: string): Option<Template> {
    ConfFrom(Initial(hash), Text.Split(config, '\n'))
  }

  /** getConf (template/template.go:54-77): the template read from a config. */
  method GetConf(hash: string, config: string) returns (r: Option<Template>)
    ensures r == ConfOf(hash, config)
  {
    var t := Template("lxc.utsname", "subutai.parent", "subutai.template.version", "lxc.arch", hash);
    assert t == Initial(hash);
    r := ReadLines(t, Text.Split(config, '\n'));
  }

  /** The loop of getConf over the config lines (template/template.go:63-75). */
  method ReadLines(init: Template, lines: seq<string>) returns (r: Option<Template>)
    ensures r == ConfFrom(init, lines)
  {
    var t := init;
    var i := 0;
    assert lines[0..] == lines;
    while i < |lines|
      invariant 0 <= i <= |lines|
      invariant ConfFrom(t, lines[i..]) == ConfFrom(init, lines)
    {
      assert lines[i..][1..] == lines[i + 1..];
      var next := Switch(t, lines[i]);
      if next.None? {
        return None;
      }
      t := next.value;
      i := i + 1;
    }
    r := Some(t);
  }

  /** The switch of getConf on one line (template/template.go:64-74); None when it indexes line[1] out of range. */
  method Switch(t: Template, v: string) returns (r: Option<Template>)
    ensures r == Step(t, v)
  {
    SwitchStep(t, v);
    var line := Text.Split(v, '=');
    var k := Text.Trim(line[0], ' ');
    r := Some(t);
    if k == t.arch {
      if |line| < 2 { return None; }
      r := Some(t.(arch := Text.Trim(line[1], ' ')));
    } else if k == t.name {
      if |line| < 2 { return None; }
      r := Some(t.(name := Text.Trim(line[1], ' ')));
    } else if k == t.parent {
      if |line| < 2 { return None; }
      r := Some(t.(parent := Text.Trim(line[1], ' ')));
    } else if k == t.version {
      if |line| < 2 { return None; }
      r := Some(t.(version := Text.Trim(line[1], ' ')));
    }
  }

  /** Step is the switch of getConf, case by case. */
  lemma SwitchStep(t: Template, v: string)
    ensures var line := Text.Split(v, '='); var k := Text.Trim(line[0], ' ');
            Step(t, v) ==
              if k == t.arch then (if |line| < 2 then None else Some(t.(arch := Text.Trim(line[1], ' '))))
              else if k == t.name then (if |line| < 2 then None else Some(t.(name := Text.Trim(line[1], ' '))))
              else if k == t.parent then (if |line| < 2 then None else Some(t.(parent := Text.Trim(line[1], ' '))))
              else if k == t.version then (if |line| < 2 then None else Some(t.(version := Text.Trim(line[1], ' '))))
              else Some(t)
  {
  }

  /** The name db.Write records for an uploaded template (template/template.go:85). */
  function ArchiveName(t: Template): (s: string)
    ensures s == t.name + "-subutai-template_" + t.version + "_" + t.arch + ".tar.gz"
    ensures Text.HasSuffix(s, ".tar.gz")
    ensures Text.HasPrefix(s, t.name + "-subutai-template_" + t.version + "_" + t.arch)
  {
    var s := t.name + "-subutai-template_" + t.version + "_" + t.arch + ".tar.gz";
    assert s[..|t.name + "-subutai-template_" + t.version + "_" + t.arch|] ==
           t.name + "-subutai-template_" + t.version + "_" + t.arch;
    s
  }

  // ---------------------------------------------------------------------------------------------
  // Properties

  /** A line `a=b` with no '=' in a: the key is a trimmed, and the value is the text of b before its next '=', trimmed. */
  lemma StepLine(t: Template, a: string, b: string)
    requires '=' !in a
    ensures Key(a + "=" + b) == Text.Trim(a, ' ')
    ensures Step(t, a + "=" + b) ==
            match Match(t, Text.Trim(a, ' '))
            case None => Some(t)
            case Some(f) => Some(Set(t, f, Text.Trim(Text.Before(b, '='), ' ')))
  {
    var line := Text.Split(a + "=" + b, '=');
    Text.SplitFirst(a, b, '=');
    Text.SplitHead(b, '=');
    assert line == [a] + Text.Split(b, '=');
    assert line[0] == a && |line| > 1 && line[1] == Text.Before(b, '=');
  }

  /** A line selecting a field but holding no '=' makes getConf panic, whatever follows. */
  lemma StepPanics(t: Template, v: string, rest: seq<string>)
    requires '=' !in v && Match(t, Text.Trim(v, ' ')).Some?
    ensures Step(t, v) == None && ConfFrom(t, [v] + rest) == None
  {
    assert ([v] + rest)[0] == v;
  }

  /** Only the first matching field changes; the hash never does. */
  lemma StepFirstOnly(t: Template, v: string)
    requires Step(t, v).Some?
    ensures Step(t, v).value.hash == t.hash
    ensures Match(t, Key(v)).None? ==> Step(t, v).value == t
    ensures Match(t, Key(v)).Some? ==>
              forall g :: g != Match(t, Key(v)).value ==> Get(Step(t, v).value, g) == Get(t, g)
  {
  }

  /**
    Once a field is set from a line with key k, a later line with key k no longer selects it, unless the
    value set is k itself.
   */
  lemma StepRetires(t: Template, v: string, f: Field)
    requires Step(t, v).Some? && Match(t, Key(v)) == Some(f)
    requires Text.Trim(Text.Split(v, '=')[1], ' ') != Key(v)
    ensures Match(Step(t, v).value, Key(v)) != Some(f)
  {
  }

  /** getConf copies the hash verbatim. */
  lemma {:induction false} ConfHash(t: Template, lines: seq<string>)
    requires ConfFrom(t, lines).Some?
    ensures ConfFrom(t, lines).value.hash == t.hash
    decreases |lines|
  {
    if lines != [] {
      ConfHash(Step(t, lines[0]).value, lines[1..]);
    }
  }

  /** A field no line names by its placeholder keeps the placeholder. */
  lemma {:induction false} ConfPlaceholder(t: Template, lines: seq<string>, f: Field)
    requires Get(t, f) == Placeholder(f)
    requires forall i :: 0 <= i < |lines| ==> Key(lines[i]) != Placeholder(f)
    requires ConfFrom(t, lines).Some?
    ensures Get(ConfFrom(t, lines).value, f) == Placeholder(f)
    decreases |lines|
  {
    if lines != [] {
      var t' := Step(t, lines[0]).value;
      assert Match(t, Key(lines[0])) != Some(f);
      ConfPlaceholder(t', lines[1..], f);
    }
  }

  /** A value as it should be written: not empty, no '=' or line end, no space around it. */
  predicate Clean(v: string) {
    v != [] && v[0] != ' ' && v[|v| - 1] != ' ' && '=' !in v && '\n' !in v
  }

  /** The config line `key = value`. */
  function Line(key: string, v: string): string {
    key + " = " + v
  }

  lemma LineStep(t: Template, f: Field, v: string)
    requires Clean(v)
    requires Match(t, Placeholder(f)) == Some(f)
    ensures Step(t, Line(Placeholder(f), v)) == Some(Set(t, f, v))
  {
    var k := Placeholder(f);
    assert Line(k, v) == (k + " ") + "=" + (" " + v);
    PaddedKey(f);
    PaddedValue(v);
    StepLine(t, k + " ", " " + v);
    assert Text.Trim(k + " ", ' ') == k && Match(t, k) == Some(f);
    assert Text.Trim(Text.Before(" " + v, '='), ' ') == v;
  }

  lemma PaddedKey(f: Field)
    ensures '=' !in Placeholder(f) + " " && Text.Trim(Placeholder(f) + " ", ' ') == Placeholder(f)
  {
    match f
    case Arch => Padded("lxc.arch");
    case Name => Padded("lxc.utsname");
    case Parent => Padded("subutai.parent");
    case Version => Padded("subutai.template.version");
  }

  lemma Padded(k: string)
    requires Clean(k)
    ensures '=' !in k + " " && Text.Trim(k + " ", ' ') == k
  {
    Text.TrimPadded([], k, " ", ' ');
    assert [] + k + " " == k + " ";
  }

  lemma PaddedValue(v: string)
    requires Clean(v)
    ensures Text.Before(" " + v, '=') == " " + v && Text.Trim(Text.Before(" " + v, '='), ' ') == v
  {
    Text.TrimPadded(" ", v, [], ' ');
    assert " " + v + [] == " " + v;
  }

  /**
    A config that sets each field by its placeholder key, in switch order, to a clean value that is not
    itself a placeholder, gives a template holding those values, and the archive is named after them.
   */
  lemma ConfRoundTrip(hash: string, arch: string, name: string, parent: string, version: string)
    requires Clean(arch) && Clean(name) && Clean(parent) && Clean(version)
    requires forall f :: arch != Placeholder(f) && name != Placeholder(f) && parent != Placeholder(f) &&
                         version != Placeholder(f)
    ensures var config := Text.Join([Line("lxc.arch", arch), Line("lxc.utsname", name),
                                     Line("subutai.parent", parent), Line("subutai.template.version", version)], '\n');
            && ConfOf(hash, config) == Some(Template(name, parent, version, arch, hash))
            && ArchiveName(ConfOf(hash, config).value) ==
               name + "-subutai-template_" + version + "_" + arch + ".tar.gz"
  {
    var lines := [Line("lxc.arch", arch), Line("lxc.utsname", name),
                  Line("subutai.parent", parent), Line("subutai.template.version", version)];
    forall i | 0 <= i < |lines| ensures '\n' !in lines[i] {
    }
    Text.SplitJoin(lines, '\n');
    ConfLines(hash, arch, name, parent, version);
  }

  /** The four lines of such a config, read one by one. */
  lemma ConfLines(hash: string, arch: string, name: string, parent: string, version: string)
    requires Clean(arch) && Clean(name) && Clean(parent) && Clean(version)
    requires forall f :: arch != Placeholder(f) && name != Placeholder(f) && parent != Placeholder(f) &&
                         version != Placeholder(f)
    ensures ConfFrom(Initial(hash), [Line("lxc.arch", arch), Line("lxc.utsname", name),
                                     Line("subutai.parent", parent), Line("subutai.template.version", version)])
            == Some(Template(name, parent, version, arch, hash))
  {
    var l0, l1, l2, l3 := Line("lxc.arch", arch), Line("lxc.utsname", name),
                          Line("subutai.parent", parent), Line("subutai.template.version", version);
    var t0 := Initial(hash);
    var t1 := Set(t0, Arch, arch);
    var t2 := Set(t1, Name, name);
    var t3 := Set(t2, Parent, parent);
    var lines := [l0, l1, l2, l3];
    Tails(l0, l1, l2, l3);
    assert Match(t0, Placeholder(Arch)) == Some(Arch);
    ConfStep(t0, Arch, arch, lines);
    assert Match(t1, Placeholder(Name)) == Some(Name);
    ConfStep(t1, Name, name, lines[1..]);
    assert Match(t2, Placeholder(Parent)) == Some(Parent);
    ConfStep(t2, Parent, parent, lines[1..][1..]);
    assert Match(t3, Placeholder(Version)) == Some(Version);
    ConfStep(t3, Version, version, lines[1..][1..][1..]);
  }

  lemma Tails(a: string, b: string, c: string, d: string)
    ensures [a, b, c, d][1..] == [b, c, d] && [b, c, d][1..] == [c, d] && [c, d][1..] == [d] && [d][1..] == []
  {
  }

  /** A clean line for a field still waiting for its placeholder sets that field. */
  lemma ConfStep(t: Template, f: Field, v: string, lines: seq<string>)
    requires Clean(v) && Match(t, Placeholder(f)) == Some(f)
    requires lines != [] && lines[0] == Line(Placeholder(f), v)
    ensures ConfFrom(t, lines) == ConfFrom(Set(t, f, v), lines[1..])
  {
    LineStep(t, f, v);
  }
}
