/**
 * The part of the window's behaviour that touches the profile engine:
 * applying the selected profile (`ChRandrUI._apply_choice`). The widgets
 * themselves are not modelled; the window's state is the store and the
 * profile currently selected, if any.
 */
module Gui {
  import opened Wrappers
  import opened IniFile
  import opened Commands
  import opened Xrandr
  import opened Chrandr

  datatype Ui = Ui(config: Config, selected: Option<Profile>)

  /** The window after applying, the files, and what the commands did. */
  datatype Applied = Applied(ui: Ui, disk: Disk, run: Execution)

  /** `ChRandrUI._apply_choice`: with a selection, run its commands, stop at
      the first failure and swallow it, record the selection as active in
      the status file whatever happened, and clear the selection. Without a
      selection nothing happens. */
  function ApplyChoice(ui: Ui, disk: Disk, succeeds: string -> bool): (r: Applied)
    ensures ui.selected.None? ==> r.ui == ui && r.disk == disk && r.run.ran == []
    ensures ui.selected.Some? ==>
      && StopsAtFirstFailure(ui.selected.value.commands, succeeds, r.run)
      && r.ui.selected.None?
      && r.ui.config == ui.config.(active := Some(ui.selected.value.code))
      && ActiveIn(r.disk, ui.config.statusFile) == Some(ui.selected.value.code)
      && r.disk.Keys == disk.Keys + {ui.config.statusFile}
      && r.disk[ui.config.statusFile] == [Section(General, map["active" := ui.selected.value.code])]
      && (forall path | path in disk && path != ui.config.statusFile :: r.disk[path] == disk[path])
  {
    match ui.selected
    case None => Applied(ui, disk, Execution([], None))
    case Some(p) =>
      var run := ExecuteProfile(p, succeeds);
      var saved := SaveActive(ui.config, disk, ui.selected);
      Applied(Ui(saved.config, None), saved.disk, run)
  }

  /** A failing command does not stop the profile from being recorded as
      active: the failure is only logged. */
  lemma ApplyRecordsFailedProfile(ui: Ui, disk: Disk, succeeds: string -> bool, k: nat)
    requires ui.selected.Some?
    requires k < |ui.selected.value.commands| && !succeeds(ui.selected.value.commands[k])
    ensures ApplyChoice(ui, disk, succeeds).run.failedAt.Some?
    ensures ApplyChoice(ui, disk, succeeds).run.failedAt.value <= k
    ensures ApplyChoice(ui, disk, succeeds).ui.config.active == Some(ui.selected.value.code)
  {
  }

  /** After applying, reloading a store that loads without error, and whose
      file names the status file in use, reads the applied profile back as
      the active one. */
  lemma ApplyThenReload(ui: Ui, disk: Disk, succeeds: string -> bool)
    requires ui.selected.Some?
    requires ui.config.filename in disk && ui.config.filename != ui.config.statusFile
    ensures
      && StatusFileIn(ParserFor(disk, ui.config.filename)) == ui.config.statusFile
      && Load(ui.config, disk).error.None?
      ==>
      var r := ApplyChoice(ui, disk, succeeds);
      Load(r.ui.config, r.disk).config.active == Some(ui.selected.value.code)
  {
    if StatusFileIn(ParserFor(disk, ui.config.filename)) == ui.config.statusFile
      && Load(ui.config, disk).error.None?
    {
      LoadAfterSaveActive(ui.config, disk, ui.selected);
    }
  }
}
