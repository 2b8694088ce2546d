/**
 * The part of Python's `configparser` that the profile engine depends on,
 * at the level of parsed data: an ini file is an ordered sequence of named
 * sections, each mapping option names to string values. The concrete text
 * syntax (continuation lines, comments, interpolation, the DEFAULT section,
 * option-name case folding) is not modelled.
 */
module IniFile {
  import opened Wrappers
  import opened Seqs

  datatype Section = Section(name: string, entries: map<string, string>)

  /** Sections in file order. */
  type Ini = seq<Section>

  /** The files the program reads and writes, by path; a path that is absent
      is a file that does not exist or cannot be read. */
  type Disk = map<string, Ini>

  /** Position of the first section called `name`. */
  function Find(ini: Ini, name: string): (r: Option<nat>)
    ensures r.Some? ==> r.value < |ini| && ini[r.value].name == name
    ensures r.Some? ==> forall i | 0 <= i < r.value :: ini[i].name != name
    ensures r.None? ==> forall i | 0 <= i < |ini| :: ini[i].name != name
  {
    if |ini| == 0 then None
    else if ini[0].name == name then Some(0)
    else
      match Find(ini[1..], name)
      case None => None
      case Some(k) => Some(k + 1)
  }

  /** `ConfigParser.has_section`. */
  predicate HasSection(ini: Ini, name: string) {
    Find(ini, name).Some?
  }

  /** `ConfigParser.get(section, option)`; `None` stands for the
      `NoSectionError` / `NoOptionError` the parser raises when no fallback
      is given, and for `has_option` failing. */
  function Get(ini: Ini, name: string, key: string): Option<string> {
    match Find(ini, name)
    case None => None
    case Some(i) => if key in ini[i].entries then Some(ini[i].entries[key]) else None
  }

  /** Adds section `name` when it is missing and then sets every option of
      `values` in it: the effect of `add_section` followed by `set`, and of
      reading a section header and its options from a file. */
  function Upsert(ini: Ini, name: string, values: map<string, string>): (r: Ini)
    ensures HasSection(ini, name) ==> |r| == |ini|
    ensures !HasSection(ini, name) ==> |r| == |ini| + 1 && r[|ini|] == Section(name, values)
    ensures forall i | 0 <= i < |ini| :: r[i].name == ini[i].name
    ensures forall i | 0 <= i < |ini| && Find(ini, name) != Some(i) :: r[i] == ini[i]
    ensures HasSection(ini, name) ==>
      var i := Find(ini, name).value; r[i] == Section(name, ini[i].entries + values)
  {
    match Find(ini, name)
    case None => ini + [Section(name, values)]
    case Some(i) => ini[i := Section(name, ini[i].entries + values)]
  }

  /** The first section of each name is unique: no name occurs twice. */
  predicate DistinctNames(ini: Ini) {
    forall i, j | 0 <= i < j < |ini| :: ini[i].name != ini[j].name
  }

  /** `ConfigParser.read`: the sections of `file`, in order, merged into the
      sections the parser already holds. */
  function ReadInto(ini: Ini, file: Ini): (r: Ini)
    ensures |r| >= |ini|
    ensures forall i | 0 <= i < |ini| :: r[i].name == ini[i].name
    decreases |file|
  {
    if |file| == 0 then ini
    else ReadInto(Upsert(ini, file[0].name, file[0].entries), file[1..])
  }

  /** The contents of the file at `path`, or no sections when it is absent:
      `ConfigParser.read` silently skips a file it cannot open. */
  function FileAt(disk: Disk, path: string): Ini {
    if path in disk then disk[path] else []
  }

  /** Setting an option is visible to a later `get` of that option. */
  lemma GetUpsertSame(ini: Ini, name: string, values: map<string, string>, key: string)
    ensures Get(Upsert(ini, name, values), name, key)
      == if key in values then Some(values[key]) else Get(ini, name, key)
  {
    var r := Upsert(ini, name, values);
    match Find(ini, name)
    case None =>
      FindAppendNew(ini, name, values);
    case Some(i) =>
      FindSameNames(ini, r, name);
  }

  /** Setting an option of one section leaves every other section's options
      as they were. */
  lemma GetUpsertOther(ini: Ini, name: string, values: map<string, string>, other: string, key: string)
    requires other != name
    ensures Get(Upsert(ini, name, values), other, key) == Get(ini, other, key)
  {
    var r := Upsert(ini, name, values);
    if HasSection(ini, name) {
      FindSameNames(ini, r, other);
    } else {
      FindAppendOther(ini, Section(name, values), other);
    }
  }

  lemma FindSameNames(a: Ini, b: Ini, name: string)
    requires |a| == |b|
    requires forall i | 0 <= i < |a| :: a[i].name == b[i].name
    ensures Find(a, name) == Find(b, name)
  {
    match Find(a, name)
    case None =>
    case Some(k) =>
      assert Find(b, name).Some?;
  }

  lemma FindAppendNew(ini: Ini, name: string, values: map<string, string>)
    requires Find(ini, name).None?
    ensures Find(ini + [Section(name, values)], name) == Some(|ini|)
  {
    var r := ini + [Section(name, values)];
    assert r[|ini|].name == name;
    assert forall i | 0 <= i < |ini| :: r[i].name != name;
  }

  lemma FindAppendOther(ini: Ini, s: Section, name: string)
    requires s.name != name
    ensures Find(ini + [s], name) == Find(ini, name)
  {
    var r := ini + [s];
    assert forall i | 0 <= i < |ini| :: r[i] == ini[i];
  }

  /** Merging sections leaves an option as it was when no merged section
      of that name sets it. */
  lemma {:induction false} ReadIntoKeepsOption(ini: Ini, file: Ini, name: string, key: string)
    requires forall j | 0 <= j < |file| :: file[j].name != name || key !in file[j].entries
    ensures Get(ReadInto(ini, file), name, key) == Get(ini, name, key)
    decreases |file|
  {
    if |file| > 0 {
      if file[0].name == name {
        GetUpsertSame(ini, name, file[0].entries, key);
      } else {
        GetUpsertOther(ini, file[0].name, file[0].entries, name, key);
      }
      ReadIntoKeepsOption(Upsert(ini, file[0].name, file[0].entries), file[1..], name, key);
    }
  }

  /** A parser never holds two sections of one name: `add_section` is only
      reached for a name it does not hold. */
  lemma UpsertDistinct(ini: Ini, name: string, values: map<string, string>)
    requires DistinctNames(ini)
    ensures DistinctNames(Upsert(ini, name, values))
  {
    var r := Upsert(ini, name, values);
    if !HasSection(ini, name) {
      forall i, j | 0 <= i < j < |r|
        ensures r[i].name != r[j].name
      {
        if j == |ini| {
          assert r[i].name == ini[i].name;
        }
      }
    }
  }

  /** Reading files keeps the parser's section names distinct, whatever
      the files hold. */
  lemma {:induction false} ReadIntoDistinct(ini: Ini, file: Ini)
    requires DistinctNames(ini)
    ensures DistinctNames(ReadInto(ini, file))
    decreases |file|
  {
    if |file| > 0 {
      UpsertDistinct(ini, file[0].name, file[0].entries);
      ReadIntoDistinct(Upsert(ini, file[0].name, file[0].entries), file[1..]);
    }
  }

  /** After merging sections with distinct names, each option of each of
      them is visible, whatever the parser held before. */
  lemma {:induction false} ReadIntoSets(ini: Ini, file: Ini, i: nat, key: string)
    requires DistinctNames(file) && i < |file| && key in file[i].entries
    ensures Get(ReadInto(ini, file), file[i].name, key) == Some(file[i].entries[key])
    decreases |file|
  {
    if i == 0 {
      ReadIntoSetsFirst(ini, file, key);
    } else {
      var next, tail := Upsert(ini, file[0].name, file[0].entries), file[1..];
      assert tail[i - 1] == file[i];
      assert DistinctNames(tail) by {
        assert forall j | 0 <= j < |tail| :: tail[j] == file[j + 1];
      }
      ReadIntoSets(next, tail, i - 1, key);
    }
  }

  lemma ReadIntoSetsFirst(ini: Ini, file: Ini, key: string)
    requires DistinctNames(file) && 0 < |file| && key in file[0].entries
    ensures Get(ReadInto(ini, file), file[0].name, key) == Some(file[0].entries[key])
  {
    var next, tail := Upsert(ini, file[0].name, file[0].entries), file[1..];
    GetUpsertSame(ini, file[0].name, file[0].entries, key);
    assert forall j | 0 <= j < |tail| :: tail[j] == file[j + 1];
    ReadIntoKeepsOption(next, tail, file[0].name, key);
  }

  /** Merging sections leaves every section of another name in place. */
  lemma {:induction false} ReadIntoKeepsSection(ini: Ini, file: Ini, k: nat)
    requires k < |ini|
    requires forall j | 0 <= j < |file| :: file[j].name != ini[k].name
    ensures k < |ReadInto(ini, file)| && ReadInto(ini, file)[k] == ini[k]
    decreases |file|
  {
    if |file| > 0 {
      var next := Upsert(ini, file[0].name, file[0].entries);
      assert Find(ini, file[0].name) != Some(k);
      ReadIntoKeepsSection(next, file[1..], k);
    }
  }

  /** A section whose name the parser does not hold yet is appended. */
  lemma UpsertFresh(ini: Ini, s: Section)
    requires forall k | 0 <= k < |ini| :: ini[k].name != s.name
    ensures Upsert(ini, s.name, s.entries) == ini + [s]
  {
  }

  /** Merging sections with new, distinct names appends them in order. */
  lemma {:induction false} ReadIntoFresh(ini: Ini, file: Ini)
    requires DistinctNames(file)
    requires forall k, j | 0 <= k < |ini| && 0 <= j < |file| :: ini[k].name != file[j].name
    ensures ReadInto(ini, file) == ini + file
    decreases |file|
  {
    if |file| > 0 {
      UpsertFresh(ini, file[0]);
      var next := ini + [file[0]];
      assert forall k | 0 <= k < |ini| :: next[k] == ini[k];
      ReadIntoFresh(next, file[1..]);
      HeadTail(file);
      AppendAssoc(ini, [file[0]], file[1..]);
    }
  }
}
