# chrandr profile engine in Dafny

chrandr switches a desktop between display configurations ("profiles").
Each profile has a code, a title, the xrandr output ports it needs, and a list
of shell commands that switch to it. The engine modelled here:

- decides which profiles are **available** from the outputs `xrandr --query` reports as
  connected;
- **executes** a profile's commands in order, stopping at the first one that fails;
- keeps the **profile store** (`ChrandrConfig`):
  - `load` reads the configuration file;
  - `save` writes it back;
  - `create` makes a default configuration holding one example profile;
  - `save_active_randr` records the active profile in a separate status file;
- **applies** the profile selected in the window (`ChRandrUI._apply_choice`);
- **parses** the output of `xrandr --query` into the list of connected outputs.

The modules follow the program's structure:

| module | file | models |
|---|---|---|
| `Wrappers` | wrappers.dfy | `Option`, for Python's `None` |
| `Seqs` | seqs.dfy | two concatenation facts |
| `Text` | text.dfy | `str.strip`, `str.split`, `str.join`, and the list codec `filter(None, (x.strip() for x in raw.split(',')))` |
| `IniFile` | ini.dfy | the parsed-data part of `configparser`: an ordered list of named sections mapping options to strings, plus `read`, `add_section`/`set` and `get` (whose missing value also stands for `has_option` failing) |
| `Commands` | commands.dfy | `execute_commands`, with an oracle for command exit statuses |
| `Xrandr` | xrandr.dfy | `XrandrConfig`: `available` and `execute` |
| `Chrandr` | chrandr.dfy | `ChrandrConfig`: `__init__`, `load`, `save`, `create`, `save_active_randr` |
| `Gui` | gui.dfy | `_apply_choice` |
| `Outputs` | outputs.dfy | `get_connected_outputs` and its regular expression `^([\w\d-]*) connected .*$` |

Files are modelled as a `Disk`, a map from path to parsed file. A path that
is absent stands for a file that does not exist or cannot be read. Every
operation that writes returns the new `Disk`. Running a shell command is the
parameter `succeeds: string -> bool`.

Three copies of the core exist in the repository: `chrandr/config.py` with
`chrandr/utils.py`, `chrandr/simple_gui.py`, and `chrandr/chrandr.py`. Their
`ChrandrConfig` classes match line for line. The table cites `config.py`
for the store, and `simple_gui.py` for `XrandrConfig.execute` and
`_apply_choice`. `config.py` calls `subprocess` without importing it (line 72),
so its own `execute` would raise `NameError` whenever a profile has a command.

Behaviour of the program that the model keeps:

- Commands are written joined by `",\n"` and read back split on `,`. A
  command that contains a comma is therefore read back as several commands;
  `CleanLists` excludes such commands from the round trip.
- A failing command is logged and swallowed. The profile is still recorded
  as active and the caller sees no error (`Gui.ApplyRecordsFailedProfile`).
- With no selection, `_apply_choice` does nothing. `save_active_randr(None)`
  writes an empty `active` value, and a later `load` reads it back as the
  empty code, not as "no active profile" (`Chrandr.LoadAfterSaveActive`).
- The connected outputs are a list in the order of the `xrandr` lines, with
  any duplicates. Availability depends only on membership, so it ignores
  order and repetition (`Xrandr.AvailableIgnoresOrder`).
- A profile section without `ports` makes `load` raise (`NoOptionError`).
  By then the status-file path is already updated and the profiles before
  that section are already read. The active code is left as it was
  (`LoadError.MissingPorts`).

## Model

| member | source | states |
|---|---|---|
| Xrandr.AllConnected | chrandr/config.py:60-63 | the loop returns true exactly when every required port is among the connected outputs |
| Xrandr.Available | chrandr/config.py:49-63 | a profile is available iff every one of its ports is connected; a profile with no ports is always available |
| Xrandr.AvailableMonotone | chrandr/config.py:60-63 | connecting more outputs never makes an available profile unavailable |
| Xrandr.AvailableIgnoresOrder | chrandr/config.py:60-63 | availability depends only on which outputs are connected, not on their order or repetition |
| Xrandr.AvailabilityScenarios | chrandr/config.py:49-63 | a VGA-1 profile is available with VGA-1 and HDMI-1 connected; a VGA-1 plus HDMI-1 profile is not available with VGA-1 alone |
| Xrandr.ExecuteProfile | chrandr/simple_gui.py:105-116 | running a profile runs its commands in order up to and including the first failure, and nothing after it |
| Commands.Execute | chrandr/utils.py:21-40 | the run is the longest successful prefix of the list plus the first failing command, whose position it reports |
| Commands.StopsAtFirstFailureUnique | chrandr/utils.py:33-40 | the stop-at-first-failure behaviour determines the run uniquely |
| Commands.ExecuteCommands | chrandr/utils.py:21-40 | the loop runs a prefix of the commands; without a failure it ran all of them and all succeeded; with one, only the last command it ran failed; the result equals the reference run |
| Commands.ExecuteEmpty | chrandr/utils.py:34-37 | an empty command list runs nothing and reports no failure |
| Commands.FailureIsLast | chrandr/utils.py:33-40 | if command k fails, the run reports a failure at or before k and starts at most k+1 commands |
| Text.Strip | chrandr/config.py:141 | the stripped value is a slice of the input with only whitespace before and after it, and it neither starts nor ends with whitespace |
| Text.StripSurrounded | chrandr/config.py:141 | whitespace on both sides of a trimmed, non-empty string is exactly what stripping removes |
| Text.StripBlank | chrandr/config.py:141 | stripping yields the empty string exactly for all-whitespace input, which `filter(None, ...)` then drops |
| Text.StripTrimmed | chrandr/config.py:141 | stripping a string without surrounding whitespace leaves it unchanged |
| Text.Split | chrandr/config.py:141 | `split(',')` returns at least one piece, and no piece contains the separator |
| Text.JoinSplit | chrandr/config.py:141 | joining the pieces of a split with the separator gives the original string |
| Text.SplitJoin | chrandr/config.py:173 | splitting a join of separator-free pieces gives the pieces back |
| Text.SplitConcat | chrandr/config.py:141 | the pieces of `a + sep + b` are the pieces of `a` followed by the pieces of `b` |
| Text.StripNonEmpty | chrandr/config.py:141 | the kept items are non-empty, have no surrounding whitespace, and are no more than the pieces |
| Text.StripNonEmptyCons | chrandr/config.py:141 | a piece that is not blank is kept, stripped, in front of the items of the pieces after it |
| Text.StripNonEmptyBlank | chrandr/config.py:141 | a blank piece is dropped wherever it stands |
| Text.SplitList | chrandr/config.py:141 | every item the list codec yields is non-empty, trimmed and free of commas |
| Text.SplitListBlank | chrandr/config.py:142-143 | a blank value, such as the `''` fallback for `commands`, reads as the empty list |
| Text.SplitListCons | chrandr/config.py:141 | the text before the first comma, stripped, is the first item when it is not blank |
| Text.SplitListBlankCons | chrandr/config.py:141 | blank text before the first comma gives no item: the list is that of the text after the comma |
| Text.JoinEnds | chrandr/config.py:173-174 | `sep.join` starts with the first item and ends with the last, and a single item is joined to itself |
| Text.SplitListJoinAfterSpace | chrandr/config.py:173-174 | items joined by a comma plus whitespace, after leading whitespace, read back as the same items |
| Text.SplitListJoin | chrandr/config.py:173-174 | clean items joined with `,` (ports) or `,\n` (commands) read back as the same list |
| IniFile.Find | chrandr/config.py:170 | finds the first section with the name, and reports none exactly when no section has it |
| IniFile.Upsert | chrandr/config.py:170-174 | `add_section` when missing, then `set`: a missing section is appended with the values; an existing one keeps its place and its other options gain the values; all other sections are unchanged |
| IniFile.ReadInto | chrandr/config.py:128-130 | reading a file into a parser keeps every section the parser held, in place |
| IniFile.GetUpsertSame | chrandr/config.py:168 | an option that is set is read back; other options of that section are unchanged |
| IniFile.GetUpsertOther | chrandr/config.py:172-174 | setting options of one section leaves every other section's options unchanged |
| IniFile.ReadIntoKeepsOption | chrandr/config.py:166-174 | reading sections leaves an option as it was when no section of that name sets it |
| IniFile.UpsertDistinct | chrandr/config.py:170-171 | `add_section` only for a missing name keeps the section names distinct |
| IniFile.ReadIntoDistinct | chrandr/config.py:128-130 | reading any file into a parser keeps its section names distinct |
| IniFile.ReadIntoSets | chrandr/config.py:169-174 | after reading sections with distinct names, each option of each section is read back with its value |
| IniFile.ReadIntoKeepsSection | chrandr/config.py:164-166 | a section whose name is not among those read in stays as it is, in place |
| IniFile.ReadIntoFresh | chrandr/config.py:164-174 | sections with distinct new names are appended in order |
| Chrandr.NewConfig | chrandr/config.py:91-102 | a new store has the given file, the default status file, no profiles and no active profile |
| Chrandr.ProfileSections | chrandr/config.py:136-137 | the profile sections are exactly the sections not named `chrandr`: each of them is kept and nothing else is |
| Chrandr.ParserForShape | chrandr/config.py:128-137 | the parser holds `chrandr` first and no name twice, so the profile sections are all the sections after it, in file order |
| Chrandr.LoadedCodes | chrandr/config.py:136-144 | profiles read from distinctly named non-`chrandr` sections have distinct codes, none of them `chrandr` |
| Chrandr.ProfileFromSection | chrandr/config.py:138-144 | a section gives a profile iff it has `ports`; the profile's code is the section name and its port and command lists are clean |
| Chrandr.TitleDefault | chrandr/config.py:139 | a missing title defaults to the code |
| Chrandr.CommandsDefault | chrandr/config.py:142-143 | missing commands mean no commands |
| Chrandr.ProfileSectionRoundTrip | chrandr/config.py:139-143 | the section `save` writes for a profile with clean lists reads back as that profile |
| Chrandr.LoadSections | chrandr/config.py:135-145 | the loop keeps the parsed profiles in order and stops at the first section that does not parse, which it names; it reaches the end iff every section parsed |
| Chrandr.LoadSectionsAll | chrandr/config.py:135-145 | when every section parses, the loop yields exactly the parsed profiles |
| Chrandr.LoadSectionsComplete | chrandr/config.py:135-145 | the loop finishes without error iff every section parses |
| Chrandr.Load | chrandr/config.py:118-156 | an unreadable file raises and changes nothing. Otherwise: the status-file path comes from the file; the profiles are read from the profile sections in order, with distinct codes; loading fails iff a profile section lacks `ports`, and then the error names the first such section and the profiles are those before it; on success the active code is the status file's `active` option, or none |
| Chrandr.SectionsOf | chrandr/config.py:169-174 | one section per profile, in order, named by the code and holding title, ports and commands |
| Chrandr.Save | chrandr/config.py:158-177 | only the configuration file is written, and its `chrandr` section records the status-file path |
| Chrandr.SaveWritesProfile | chrandr/config.py:169-174 | with distinct codes, each profile's title, joined ports and joined commands are written under its code |
| Chrandr.SaveKeepsForeignSection | chrandr/config.py:164-166 | a section of the existing file that belongs to no profile is written back unchanged, in place |
| Chrandr.LoadSectionsOf | chrandr/config.py:135-145 | the sections written for clean profiles load back as exactly those profiles |
| Chrandr.SectionsOfRoundTrip | chrandr/config.py:139-143 | each section written for a clean profile parses back to it |
| Chrandr.ProfileSectionsAll | chrandr/config.py:136-137 | with no `chrandr` section among them, every section is a profile section |
| Chrandr.SaveFresh | chrandr/config.py:164-174 | saving to a new file writes the general section followed by one section per profile |
| Chrandr.ParseSaved | chrandr/config.py:128-130 | reading such a file into the parser gives it back unchanged |
| Chrandr.SaveThenLoad | chrandr/config.py:118-177 | saving to a new file and loading it gives back the same profiles in the same order and the same status-file path, without error |
| Chrandr.SaveActive | chrandr/config.py:179-198 | only the status file is written, and it is replaced by a file holding nothing but the `chrandr` section's `active` option: the selected code, or the empty string with no selection; the in-memory active code follows |
| Chrandr.LoadAfterSaveActive | chrandr/config.py:150-155 | a reload reads the recorded code back; after clearing it, the reload reads the empty code, not "no active profile" |
| Chrandr.ExampleClean | chrandr/config.py:109-112 | the example profile's commands survive the list codec |
| Chrandr.Create | chrandr/config.py:104-116 | the example profile is appended and the configuration file saved; the example needs no port, so it is always available |
| Chrandr.CreateThenLoad | chrandr/config.py:91-156 | a new store that creates the default configuration in a file that does not exist yet loads back exactly the example profile |
| Gui.ApplyChoice | chrandr/simple_gui.py:282-293 | without a selection nothing happens; with one, its commands run up to the first failure, its code is recorded as active in memory, the status file is replaced by one holding only that code as `active`, nothing else changes on disk, and the selection is cleared |
| Gui.ApplyRecordsFailedProfile | chrandr/simple_gui.py:288-290 | a failing command is reported at or before its position, and the profile is still recorded as active |
| Gui.ApplyThenReload | chrandr/simple_gui.py:282-293 | if the store loads without error and its file names the status file in use, then after applying, reloading reads the applied profile as the active one |
| Outputs.IdLength | chrandr/__init__.py:24 | the longest prefix of `[\w\d-]` characters: all its characters match and the next one does not |
| Outputs.MatchLine | chrandr/__init__.py:24 | a match is a run of `[\w\d-]` characters at the start of the line, immediately followed by " connected " |
| Outputs.MatchLineComplete | chrandr/__init__.py:24 | every line made of a name and " connected " matches, with that name |
| Outputs.MatchAll | chrandr/__init__.py:24 | findall yields at most one name per line, each made of `[\w\d-]` characters |
| Outputs.MatchAllConcat | chrandr/__init__.py:24 | the matches of two blocks of lines are those of the first followed by those of the second |
| Outputs.ConnectedOutputs | chrandr/__init__.py:17-28 | every connected output is made of `[\w\d-]` characters and holds no space or newline |
| Outputs.ConnectedOutputsConcat | chrandr/__init__.py:24 | with MULTILINE, the outputs of a text are those of its lines, line by line |
| Outputs.MatchAllNone | chrandr/__init__.py:24 | lines none of which matches yield no match |
| Outputs.ConnectedOutputsNone | chrandr/__init__.py:24-28 | a query in which no line matches yields the empty list |
| Outputs.ConnectedOutputsLine | chrandr/__init__.py:24 | a single line yields its name exactly when it matches |
| Outputs.DisconnectedLine | chrandr/__init__.py:24 | a "disconnected" line does not match |
| Outputs.ConnectedAtEndOfLine | chrandr/__init__.py:24 | " connected" at the end of a line does not match, because the pattern needs the trailing space |
| Outputs.EmptyName | chrandr/__init__.py:24 | the name group may be empty |
| Outputs.QueryExample | chrandr/__init__.py:17-28 | a query with VGA-1 connected and HDMI-1 disconnected yields exactly VGA-1 |

## Left out

- The GTK window, its widgets and its signal wiring: the model keeps only the selected profile and what `_apply_choice` does with it.
- Process execution (`subprocess.check_output`): a command's exit status is the oracle `succeeds`. Its output, and the error log, are not modelled.
- File I/O, `os.access` and `os.path.expanduser`: the model uses a map from path to parsed file, and paths are taken as already expanded. Write errors (`open(..., 'w')` raising) are not modelled.
- The concrete ini text syntax (comments, continuation lines, `space_around_delimiters`, the DEFAULT section, interpolation, option-name case folding, duplicate-section errors): the model works on parsed sections.
- `configparser` strips values when it reads them back. A title with surrounding whitespace, or one holding a line break, may therefore not read back unchanged. For this reason `Chrandr.ProfileSectionRoundTrip` assumes the profile is read from the section it was written to, not from re-parsed text.
- Text.Strip: whitespace is the ASCII set `str.isspace()` accepts, not every Unicode whitespace character.
- Outputs.IdLength: `\w` is taken as ASCII letters, digits and `_`, not Python's Unicode word characters.
- Outputs.ConnectedOutputs: a failing `xrandr --query` raises `CalledProcessError` in the source. The model takes the query text as its input instead.
- Logging, argument parsing, `main` and `_configure_logging`: they do not affect the engine's state.
- `XrandrConfig.execute` as written in `chrandr/config.py` raises `NameError` (no `import subprocess`). The model follows the copy in `chrandr/simple_gui.py` and `execute_commands` in `chrandr/utils.py`, which import it.
