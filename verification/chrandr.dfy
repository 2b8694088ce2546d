/**
 * The profile store (`ChrandrConfig`): loading the profiles from the
 * configuration file, saving them back, creating the default configuration
 * and recording the active profile in the separate status file.
 *
 * The configuration file holds one reserved section, `chrandr`, with the
 * `status_file` option, and one section per profile with the options
 * `title`, `ports` (comma-separated) and `commands` (comma-separated). The
 * status file holds a `chrandr` section with the `active` option.
 */
module Chrandr {
  import opened Wrappers
  import opened Seqs
  import opened Text
  import opened IniFile
  import opened Xrandr

  /** Name of the reserved general section, in both files. */
  const General: string := "chrandr"
  const DefaultStatusFile: string := "~/.config/chrandr/chrandr.state"
  const PortSeparator: string := ","
  const CommandSeparator: string := ",\n"

  /** The in-memory store: where it is read from and written to, the
      profiles in file order, and the code of the active profile. */
  datatype Config = Config(filename: string, statusFile: string, profiles: seq<Profile>, active: Option<string>)

  /** A store together with the files it has written. */
  datatype Persisted = Persisted(config: Config, disk: Disk)

  datatype LoadError =
    | ConfigNotReadable(path: string)   // FileNotFoundError
    | MissingPorts(section: string)     // NoOptionError for `ports`

  /** The store after `load`, and the error `load` raised, if any. */
  datatype Loaded = Loaded(config: Config, error: Option<LoadError>)

  /** `ChrandrConfig.__init__`: no profile, no active profile, and the
      default status file. */
  function NewConfig(filename: string): (c: Config)
    ensures c.filename == filename && c.statusFile == DefaultStatusFile
    ensures c.profiles == [] && c.active.None?
  {
    Config(filename, DefaultStatusFile, [], None)
  }

  // ---------------------------------------------------------------------
  // Profiles as sections
  // ---------------------------------------------------------------------

  /** Every port and every command survives the list codec unchanged. */
  predicate CleanLists(p: Profile) {
    && (forall i | 0 <= i < |p.ports| :: CleanItem(p.ports[i]))
    && (forall i | 0 <= i < |p.commands| :: CleanItem(p.commands[i]))
  }

  /** No two profiles share a code. */
  predicate UniqueCodes(ps: seq<Profile>) {
    forall i, j | 0 <= i < j < |ps| :: ps[i].code != ps[j].code
  }

  /** No profile uses the reserved section name as its code. */
  predicate NoReservedCode(ps: seq<Profile>) {
    forall i | 0 <= i < |ps| :: ps[i].code != General
  }

  /** The sections `load` turns into profiles: all but the reserved one, in
      file order. */
  function ProfileSections(ini: Ini): (r: seq<Section>)
    ensures |r| <= |ini|
    ensures forall i | 0 <= i < |r| :: r[i].name != General
    ensures forall s | s in r :: s in ini
    ensures forall s | s in ini && s.name != General :: s in r
  {
    if |ini| == 0 then []
    else
      assert forall s | s in ini :: s == ini[0] || s in ini[1..];
      if ini[0].name == General then ProfileSections(ini[1..])
      else [ini[0]] + ProfileSections(ini[1..])
  }

  /** `section.get(key, fallback)`. */
  function OptionOr(s: Section, key: string, fallback: string): string {
    if key in s.entries then s.entries[key] else fallback
  }

  /** The body of the `load` loop for one section. `None` is the
      `NoOptionError` raised when the section has no `ports` option. */
  function ProfileFromSection(s: Section): (r: Option<Profile>)
    ensures r.None? <==> "ports" !in s.entries
    ensures r.Some? ==> r.value.code == s.name && CleanLists(r.value)
  {
    if "ports" !in s.entries then None
    else
      Some(Profile(s.name, OptionOr(s, "title", s.name), SplitList(s.entries["ports"]),
                   SplitList(OptionOr(s, "commands", ""))))
  }

  /** A missing `title` defaults to the code. */
  lemma TitleDefault(s: Section)
    requires "ports" in s.entries && "title" !in s.entries
    ensures ProfileFromSection(s).value.title == s.name
  {
  }

  /** Missing `commands` mean no commands. */
  lemma CommandsDefault(s: Section)
    requires "ports" in s.entries && "commands" !in s.entries
    ensures ProfileFromSection(s).value.commands == []
  {
    assert OptionOr(s, "commands", "") == "";
    assert AllSpace("");
    SplitListBlank("");
  }

  /** The options `save` writes for one profile. */
  function EntriesOf(p: Profile): map<string, string> {
    map["title" := p.title,
        "ports" := Join(p.ports, PortSeparator),
        "commands" := Join(p.commands, CommandSeparator)]
  }

  /** Reading back the section `save` writes gives the profile back, as long
      as its ports and commands are clean. */
  lemma ProfileSectionRoundTrip(p: Profile)
    requires CleanLists(p)
    ensures ProfileFromSection(Section(p.code, EntriesOf(p))) == Some(p)
  {
    assert PortSeparator == "," + "" && CommandSeparator == "," + "\n";
    var s := Section(p.code, EntriesOf(p));
    assert "ports" in s.entries && "title" in s.entries && "commands" in s.entries;
    assert s.entries["title"] == p.title;
    assert s.entries["ports"] == Join(p.ports, "," + "");
    assert s.entries["commands"] == Join(p.commands, "," + "\n");
    assert AllSpace("") && AllSpace("\n");
    SplitListJoin(p.ports, "");
    SplitListJoin(p.commands, "\n");
  }

  // ---------------------------------------------------------------------
  // load
  // ---------------------------------------------------------------------

  /** The outcome of the `load` loop: the profiles appended so far and, if
      the loop stopped with `NoOptionError`, the offending section. */
  datatype Parsed = Parsed(profiles: seq<Profile>, missing: Option<string>)

  /** The `load` loop over the profile sections, with `parse` the body of
      the loop: each section becomes a profile, in order, and the loop stops
      at the first section `parse` rejects. */
  function LoadSections(secs: seq<Section>, parse: Section -> Option<Profile>): (r: Parsed)
    ensures |r.profiles| <= |secs|
    ensures forall i | 0 <= i < |r.profiles| :: parse(secs[i]) == Some(r.profiles[i])
    ensures r.missing.None? <==> |r.profiles| == |secs|
    ensures r.missing.Some? ==>
      && parse(secs[|r.profiles|]).None?
      && secs[|r.profiles|].name == r.missing.value
  {
    if |secs| == 0 then Parsed([], None)
    else
      match parse(secs[0])
      case None => Parsed([], Some(secs[0].name))
      case Some(p) =>
        var rest := LoadSections(secs[1..], parse);
        var r := Parsed([p] + rest.profiles, rest.missing);
        assert forall i | 1 <= i < |r.profiles| :: secs[i] == secs[1..][i - 1] && r.profiles[i] == rest.profiles[i - 1];
        r
  }

  /** When every section parses, loading yields exactly the parsed
      profiles and no missing section. */
  lemma LoadSectionsAll(secs: seq<Section>, parse: Section -> Option<Profile>, ps: seq<Profile>)
    requires |ps| == |secs|
    requires forall i | 0 <= i < |secs| :: parse(secs[i]) == Some(ps[i])
    ensures LoadSections(secs, parse) == Parsed(ps, None)
  {
    var r := LoadSections(secs, parse);
    LoadSectionsComplete(secs, parse);
    assert r.missing.None?;
    assert |r.profiles| == |ps|;
    assert forall i | 0 <= i < |ps| :: r.profiles[i] == ps[i];
  }

  /** The loop runs to the end exactly when `parse` accepts every section. */
  lemma LoadSectionsComplete(secs: seq<Section>, parse: Section -> Option<Profile>)
    ensures LoadSections(secs, parse).missing.None? <==> forall i | 0 <= i < |secs| :: parse(secs[i]).Some?
  {
  }

  /** The parser `load` and `save` build: a `chrandr` section first, then
      the file at `path`, if there is one, read into it. */
  function ParserFor(disk: Disk, path: string): Ini {
    ReadInto([Section(General, map[])], FileAt(disk, path))
  }

  /** The `status_file` option of the `chrandr` section, falling back to the
      default status-file path when it is missing. */
  function StatusFileIn(ini: Ini): string {
    Get(ini, General, "status_file").GetOr(DefaultStatusFile)
  }

  /** The `active` option of the status file at `path`: `None` when the file
      or the option is missing (`has_option` fails). */
  function ActiveIn(disk: Disk, path: string): Option<string> {
    Get(ReadInto([], FileAt(disk, path)), General, "active")
  }

  /** `ChrandrConfig.load`. An unreadable configuration file raises before
      anything changes. Otherwise the status-file path is updated, the
      profile list is rebuilt, and, unless a profile section lacks `ports`,
      the active code is read from the status file. */
  function Load(c: Config, disk: Disk): (r: Loaded)
    ensures c.filename !in disk ==> r == Loaded(c, Some(ConfigNotReadable(c.filename)))
    ensures r.config.filename == c.filename
    ensures c.filename in disk ==> r.config.statusFile == StatusFileIn(ParserFor(disk, c.filename))
    ensures c.filename in disk ==>
      var sections := ProfileSections(ParserFor(disk, c.filename));
      && |r.config.profiles| <= |sections|
      && (forall i | 0 <= i < |r.config.profiles| ::
            ProfileFromSection(sections[i]) == Some(r.config.profiles[i]))
      && (r.error.None? <==> forall i | 0 <= i < |sections| :: "ports" in sections[i].entries)
      && (r.error.None? ==> |r.config.profiles| == |sections|)
    ensures c.filename in disk && r.error.Some? ==>
      var sections, n := ProfileSections(ParserFor(disk, c.filename)), |r.config.profiles|;
      && n < |sections|
      && "ports" !in sections[n].entries
      && r.error.value == MissingPorts(sections[n].name)
    ensures c.filename in disk ==> UniqueCodes(r.config.profiles) && NoReservedCode(r.config.profiles)
    ensures r.error.None? ==> r.config.active == ActiveIn(disk, r.config.statusFile)
    ensures r.error.Some? ==> r.config.active == c.active
  {
    if c.filename !in disk then
      Loaded(c, Some(ConfigNotReadable(c.filename)))
    else
      var ini := ParserFor(disk, c.filename);
      var statusFile := StatusFileIn(ini);
      var parsed := LoadSections(ProfileSections(ini), ProfileFromSection);
      LoadSectionsComplete(ProfileSections(ini), ProfileFromSection);
      ParserForShape(disk, c.filename);
      LoadedCodes(ProfileSections(ini), parsed.profiles);
      match parsed.missing
      case Some(code) =>
        Loaded(c.(statusFile := statusFile, profiles := parsed.profiles), Some(MissingPorts(code)))
      case None =>
        Loaded(Config(c.filename, statusFile, parsed.profiles, ActiveIn(disk, statusFile)), None)
  }

  /** The parser `load` reads into holds the `chrandr` section first and
      never a name twice, so its profile sections are all the other
      sections, in file order. */
  lemma ParserForShape(disk: Disk, path: string)
    ensures var ini := ParserFor(disk, path);
      && |ini| >= 1 && ini[0].name == General && DistinctNames(ini)
      && ProfileSections(ini) == ini[1..]
      && DistinctNames(ProfileSections(ini))
  {
    var ini := ParserFor(disk, path);
    ReadIntoDistinct([Section(General, map[])], FileAt(disk, path));
    var rest := ini[1..];
    assert forall j | 0 <= j < |rest| :: rest[j] == ini[j + 1];
    ProfileSectionsAll(rest);
  }

  /** Profiles read from sections with distinct names other than
      `chrandr` have distinct codes, none of them reserved. */
  lemma LoadedCodes(secs: seq<Section>, ps: seq<Profile>)
    requires DistinctNames(secs) && |ps| <= |secs|
    requires forall i | 0 <= i < |secs| :: secs[i].name != General
    requires forall i | 0 <= i < |ps| :: ProfileFromSection(secs[i]) == Some(ps[i])
    ensures UniqueCodes(ps) && NoReservedCode(ps)
  {
    assert forall i | 0 <= i < |ps| :: ps[i].code == secs[i].name;
  }

  // ---------------------------------------------------------------------
  // save, create, save_active_randr
  // ---------------------------------------------------------------------

  /** The sections `save` writes, one per profile, in order. */
  function SectionsOf(ps: seq<Profile>): (r: seq<Section>)
    ensures |r| == |ps|
    ensures forall j | 0 <= j < |ps| :: r[j] == Section(ps[j].code, EntriesOf(ps[j]))
  {
    if |ps| == 0 then [] else [Section(ps[0].code, EntriesOf(ps[0]))] + SectionsOf(ps[1..])
  }

  /** The file `save` writes: the existing file read into a parser that
      starts with a `chrandr` section, `status_file` set, then every
      profile's section created when missing and its three options set,
      which is the same merge as reading the profile sections in. */
  function SavedFile(c: Config, disk: Disk): Ini {
    var general := Upsert(ParserFor(disk, c.filename), General, map["status_file" := c.statusFile]);
    ReadInto(general, SectionsOf(c.profiles))
  }

  /** `ChrandrConfig.save`: the configuration file is (re)written and no
      other file changes. */
  function Save(c: Config, disk: Disk): (d: Disk)
    ensures d.Keys == disk.Keys + {c.filename}
    ensures forall path | path in disk && path != c.filename :: d[path] == disk[path]
    ensures Get(d[c.filename], General, "status_file") == Some(c.statusFile)
  {
    var general := Upsert(ParserFor(disk, c.filename), General, map["status_file" := c.statusFile]);
    GetUpsertSame(ParserFor(disk, c.filename), General, map["status_file" := c.statusFile], "status_file");
    NoProfileWritesStatusFile(c.profiles);
    ReadIntoKeepsOption(general, SectionsOf(c.profiles), General, "status_file");
    disk[c.filename := SavedFile(c, disk)]
  }

  /** No profile section carries a `status_file` option. */
  lemma NoProfileWritesStatusFile(ps: seq<Profile>)
    ensures forall j | 0 <= j < |SectionsOf(ps)| :: "status_file" !in SectionsOf(ps)[j].entries
  {
    forall j | 0 <= j < |ps|
      ensures "status_file" !in SectionsOf(ps)[j].entries
    {
      assert SectionsOf(ps)[j].entries.Keys == {"title", "ports", "commands"};
      assert |"status_file"| == 11;
    }
  }

  lemma UniqueCodesDistinct(ps: seq<Profile>)
    requires UniqueCodes(ps)
    ensures DistinctNames(SectionsOf(ps))
  {
  }

  /** `save` writes, for every profile, its title, its ports joined by ","
      and its commands joined by ",\n", under its code. */
  lemma SaveWritesProfile(c: Config, disk: Disk, i: nat, key: string)
    requires UniqueCodes(c.profiles) && i < |c.profiles| && key in EntriesOf(c.profiles[i])
    ensures Get(Save(c, disk)[c.filename], c.profiles[i].code, key)
         == Some(EntriesOf(c.profiles[i])[key])
  {
    var general := Upsert(ParserFor(disk, c.filename), General, map["status_file" := c.statusFile]);
    UniqueCodesDistinct(c.profiles);
    ReadIntoSets(general, SectionsOf(c.profiles), i, key);
  }

  /** Sections of the existing file that belong to no profile (a profile
      removed from memory, say) are written back unchanged and in place. */
  lemma SaveKeepsForeignSection(c: Config, disk: Disk, k: nat)
    requires k < |ParserFor(disk, c.filename)|
    requires ParserFor(disk, c.filename)[k].name != General
    requires forall j | 0 <= j < |c.profiles| :: c.profiles[j].code != ParserFor(disk, c.filename)[k].name
    ensures k < |Save(c, disk)[c.filename]|
    ensures Save(c, disk)[c.filename][k] == ParserFor(disk, c.filename)[k]
  {
    var ini := ParserFor(disk, c.filename);
    var general := Upsert(ini, General, map["status_file" := c.statusFile]);
    assert Find(ini, General) != Some(k);
    ReadIntoKeepsSection(general, SectionsOf(c.profiles), k);
  }

  /** Reading back the sections written for profiles with clean lists
      gives the profiles back. */
  lemma {:induction false} LoadSectionsOf(ps: seq<Profile>)
    requires forall j | 0 <= j < |ps| :: CleanLists(ps[j])
    ensures LoadSections(SectionsOf(ps), ProfileFromSection) == Parsed(ps, None)
  {
    SectionsOfRoundTrip(ps);
    LoadSectionsAll(SectionsOf(ps), ProfileFromSection, ps);
  }

  /** Each section written for a profile with clean lists reads back as
      that profile. */
  lemma SectionsOfRoundTrip(ps: seq<Profile>)
    requires forall j | 0 <= j < |ps| :: CleanLists(ps[j])
    ensures |SectionsOf(ps)| == |ps|
    ensures forall j | 0 <= j < |ps| :: ProfileFromSection(SectionsOf(ps)[j]) == Some(ps[j])
  {
    forall j | 0 <= j < |ps|
      ensures ProfileFromSection(SectionsOf(ps)[j]) == Some(ps[j])
    {
      ProfileSectionRoundTrip(ps[j]);
    }
  }

  /** Without a reserved section, every section is a profile section. */
  lemma {:induction false} ProfileSectionsAll(secs: seq<Section>)
    requires forall j | 0 <= j < |secs| :: secs[j].name != General
    ensures ProfileSections(secs) == secs
    decreases |secs|
  {
    if |secs| > 0 {
      ProfileSectionsAll(secs[1..]);
      HeadTail(secs);
    }
  }

  /** The general section `save` writes into a new file. */
  function GeneralSection(c: Config): Section {
    Section(General, map["status_file" := c.statusFile])
  }

  /** `save` into a file that does not exist yet writes the general
      section followed by one section per profile. */
  lemma SaveFresh(c: Config, disk: Disk)
    requires c.filename !in disk && UniqueCodes(c.profiles) && NoReservedCode(c.profiles)
    ensures Save(c, disk)[c.filename] == [GeneralSection(c)] + SectionsOf(c.profiles)
  {
    var m := map["status_file" := c.statusFile];
    assert ParserFor(disk, c.filename) == [Section(General, map[])];
    assert map[] + m == m;
    assert Upsert([Section(General, map[])], General, m) == [GeneralSection(c)];
    UniqueCodesDistinct(c.profiles);
    ReadIntoFresh([GeneralSection(c)], SectionsOf(c.profiles));
  }

  /** Loading reads a file made of the general section and profile
      sections back as it is. */
  lemma ParseSaved(c: Config, disk: Disk)
    requires c.filename in disk && disk[c.filename] == [GeneralSection(c)] + SectionsOf(c.profiles)
    requires UniqueCodes(c.profiles) && NoReservedCode(c.profiles)
    ensures ParserFor(disk, c.filename) == [GeneralSection(c)] + SectionsOf(c.profiles)
  {
    var m := map["status_file" := c.statusFile];
    var file := disk[c.filename];
    assert file[0] == GeneralSection(c) && file[1..] == SectionsOf(c.profiles);
    UniqueCodesDistinct(c.profiles);
    assert map[] + m == m;
    assert Upsert([Section(General, map[])], General, m) == [GeneralSection(c)];
    ReadIntoFresh([GeneralSection(c)], SectionsOf(c.profiles));
  }

  /** Saving to a new file and loading it back gives the same profiles, in
      the same order, and the same status-file path. */
  lemma SaveThenLoad(c: Config, disk: Disk)
    requires c.filename !in disk
    requires UniqueCodes(c.profiles) && NoReservedCode(c.profiles)
    requires forall j | 0 <= j < |c.profiles| :: CleanLists(c.profiles[j])
    ensures Load(c, Save(c, disk)).error.None?
    ensures Load(c, Save(c, disk)).config.profiles == c.profiles
    ensures Load(c, Save(c, disk)).config.statusFile == c.statusFile
  {
    var d := Save(c, disk);
    var ini := [GeneralSection(c)] + SectionsOf(c.profiles);
    SaveFresh(c, disk);
    ParseSaved(c, d);
    assert Find(ini, General) == Some(0);
    assert ini[1..] == SectionsOf(c.profiles);
    ProfileSectionsAll(SectionsOf(c.profiles));
    assert ProfileSections(ini) == SectionsOf(c.profiles);
    LoadSectionsOf(c.profiles);
  }

  /** `ChrandrConfig.save_active_randr`: the status file is replaced by one
      holding only the `active` option (the empty string when there is no
      selection), and the in-memory active code follows. */
  function SaveActive(c: Config, disk: Disk, selected: Option<Profile>): (r: Persisted)
    ensures r.config == c.(active := if selected.Some? then Some(selected.value.code) else None)
    ensures r.disk.Keys == disk.Keys + {c.statusFile}
    ensures forall path | path in disk && path != c.statusFile :: r.disk[path] == disk[path]
    ensures r.disk[c.statusFile]
      == [Section(General, map["active" := if selected.Some? then selected.value.code else ""])]
    ensures ActiveIn(r.disk, c.statusFile) == Some(if selected.Some? then selected.value.code else "")
  {
    var code := if selected.Some? then selected.value.code else "";
    var status := Section(General, map["active" := code]);
    assert ReadInto([], [status]) == [status];
    Persisted(c.(active := if selected.Some? then Some(code) else None),
              disk[c.statusFile := [status]])
  }

  /** After recording the active profile, a successful reload reads the
      same code back; after clearing it, the reload reads the empty string
      rather than no active profile. */
  lemma LoadAfterSaveActive(c: Config, disk: Disk, selected: Option<Profile>)
    requires c.filename in disk && c.filename != c.statusFile
    requires StatusFileIn(ParserFor(disk, c.filename)) == c.statusFile
    requires Load(c, disk).error.None?
    ensures var p := SaveActive(c, disk, selected);
      && Load(p.config, p.disk).error.None?
      && Load(p.config, p.disk).config.active
         == Some(if selected.Some? then selected.value.code else "")
      && (Load(p.config, p.disk).config.active == p.config.active <==> selected.Some?)
  {
    var p := SaveActive(c, disk, selected);
    assert FileAt(p.disk, c.filename) == FileAt(disk, c.filename);
  }

  /** The profile `create` adds: no ports, so it is always available. */
  const Example: Profile := Profile(
    "example",
    "This is an chrandr configuration example",
    [],
    // each command is spelt as a concatenation of short literals: the
    // verifier reasons about the characters of a short literal directly
    // (the absence of `,` in particular), but not of a long one
    ["xmessage " + "\"You've " + "launch the " + "example " + "configuration" + " :)\"",
     "echo " + "\"Another " + "command of " + "the example\""])

  lemma ExampleClean()
    ensures CleanLists(Example)
  {
    FirstCommandClean();
    SecondCommandClean();
  }

  lemma FirstCommandClean()
    ensures CleanItem(Example.commands[0])
  {
    FirstCommandPieces();
    CleanConcat("xmessage ", "\"You've " + "launch the " + "example " + "configuration" + " :)\"");
  }

  lemma FirstCommandPieces()
    ensures ',' !in "xmessage " && ',' !in "\"You've " && ',' !in "launch the "
    ensures ',' !in "example " && ',' !in "configuration" && ',' !in " :)\""
  {
  }

  lemma SecondCommandClean()
    ensures CleanItem(Example.commands[1])
  {
    SecondCommandPieces();
    CleanConcat("echo ", "\"Another " + "command of " + "the example\"");
  }

  lemma SecondCommandPieces()
    ensures ',' !in "echo " && ',' !in "\"Another " && ',' !in "command of " && ',' !in "the example\""
  {
  }

  lemma CleanConcat(a: string, b: string)
    requires |a| > 0 && !IsSpace(a[0]) && ',' !in a
    requires |b| > 0 && !IsSpace(b[|b| - 1]) && ',' !in b
    ensures CleanItem(a + b)
  {
    assert (a + b)[0] == a[0] && (a + b)[|a + b| - 1] == b[|b| - 1];
  }

  /** `ChrandrConfig.create`: the example profile is appended and the
      configuration saved. */
  function Create(c: Config, disk: Disk): (r: Persisted)
    ensures r.config.profiles == c.profiles + [Example]
    ensures r.config.filename == c.filename && r.config.statusFile == c.statusFile
    ensures r.config.active == c.active
    ensures r.disk.Keys == disk.Keys + {c.filename}
    ensures forall path | path in disk && path != c.filename :: r.disk[path] == disk[path]
    ensures forall connected: seq<string> :: Available(r.config.profiles[|c.profiles|], connected)
  {
    var config := c.(profiles := c.profiles + [Example]);
    Persisted(config, Save(config, disk))
  }

  /** The first run of the program: a new store creates the default
      configuration in a file that does not exist yet, and loading that file
      gives exactly the example profile. */
  lemma CreateThenLoad(filename: string, disk: Disk)
    requires filename !in disk
    ensures var r := Create(NewConfig(filename), disk);
      Load(r.config, r.disk).error.None? && Load(r.config, r.disk).config.profiles == [Example]
  {
    var c := NewConfig(filename);
    var config := c.(profiles := [Example]);
    assert Create(c, disk) == Persisted(config, Save(config, disk));
    ExampleStore(config.profiles);
    SaveThenLoad(config, disk);
  }

  lemma ExampleStore(ps: seq<Profile>)
    requires ps == [Example]
    ensures UniqueCodes(ps) && NoReservedCode(ps)
    ensures forall j | 0 <= j < |ps| :: CleanLists(ps[j])
  {
    ExampleClean();
  }
}
