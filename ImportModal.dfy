/**
 * The restore dialog (src/xo-app/backup/restore/index.js:157-289): the
 * list of backups offered for one VM, built by a loop in the `_ModalBody`
 * constructor (lines 230-261), and `doImport` (lines 162-182), which turns
 * the dialog's value into an import and, optionally, a start of the
 * imported VM.
 */
module ImportModal {
  import opened Wrappers
  import opened Grammar
  import opened Lists

  /** An option of the backup selector: `{type, date, path, tag}`. */
  datatype BackupOption = BackupOption(kind: Kind, date: int, path: string, tag: string)

  /**
   * What the loop does with one entry: `None` when it returns early (a
   * backup of another VM); otherwise it pushes `backup`, which is still
   * `undefined` when neither grammar matched.
   */
  function EntryOption(file: string, vmName: string, parseDate: string -> int): (o: Option<Option<BackupOption>>)
    ensures o == Some(None) <==> Parse(file).None?
    ensures o.None? <==> Parse(file).Some? && Parse(file).value.name != vmName
    ensures o.Some? && o.value.Some? ==>
              && Parse(file).Some? && Parse(file).value.name == vmName
              && o.value.value == BackupOption(KindOf(Parse(file).value), parseDate(Parse(file).value.dateToken), file, Parse(file).value.tag)
  {
    match Parse(file)
    case None => Some(None)
    case Some(m) =>
      if m.name != vmName then None
      else Some(Some(BackupOption(KindOf(m), parseDate(m.dateToken), file, m.tag)))
  }

  function EntryOptionFn(vmName: string, parseDate: string -> int): string -> Option<Option<BackupOption>> {
    file => EntryOption(file, vmName, parseDate)
  }

  /** The `options` array the constructor hands to `setState`. */
  function OptionsOf(files: seq<string>, vmName: string, parseDate: string -> int): seq<Option<BackupOption>> {
    FilterMap(files, EntryOptionFn(vmName, parseDate))
  }

  /**
   * The options keep listing order: an entry contributes, in its own place,
   * nothing when it is a backup of another VM, an `undefined` option when
   * it matches neither grammar, and its backup otherwise.
   */
  lemma OptionsAround(a: seq<string>, file: string, b: seq<string>, vmName: string, parseDate: string -> int)
    ensures OptionsOf(a + [file] + b, vmName, parseDate)
         == OptionsOf(a, vmName, parseDate)
          + (match Parse(file)
             case None => [None]
             case Some(m) =>
               if m.name != vmName then []
               else [Some(BackupOption(KindOf(m), parseDate(m.dateToken), file, m.tag))])
          + OptionsOf(b, vmName, parseDate)
  {
    var f := EntryOptionFn(vmName, parseDate);
    FilterMapConcat(a + [file], b, f);
    FilterMapConcat(a, [file], f);
    assert [file][..0] == [];
  }

  /** Every option that is not `undefined` is a backup of `vmName` from this listing. */
  lemma OptionsOfVm(files: seq<string>, vmName: string, parseDate: string -> int, o: Option<BackupOption>)
    requires o in OptionsOf(files, vmName, parseDate) && o.Some?
    ensures o.value.path in files
    ensures Parse(o.value.path).Some? && Parse(o.value.path).value.name == vmName
    ensures o.value.kind == KindOf(Parse(o.value.path).value)
  {
    FilterMapMember(files, EntryOptionFn(vmName, parseDate), o);
  }

  /** `undefined` options come from entries that match neither grammar, and only from them. */
  lemma UndefinedOptions(files: seq<string>, vmName: string, parseDate: string -> int)
    ensures None in OptionsOf(files, vmName, parseDate)
        <==> exists i :: 0 <= i < |files| && Parse(files[i]).None?
  {
    var f := EntryOptionFn(vmName, parseDate);
    FilterMapMember(files, f, None);
    if i :| 0 <= i < |files| && Parse(files[i]).None? {
      assert f(files[i]) == Some(None);
    }
  }

  lemma OptionsStep(files: seq<string>, i: nat, vmName: string, parseDate: string -> int)
    requires i < |files|
    ensures var o := EntryOption(files[i], vmName, parseDate);
            OptionsOf(files[..i + 1], vmName, parseDate)
              == OptionsOf(files[..i], vmName, parseDate) + (if o.Some? then [o.value] else [])
  {
    assert files[..i + 1][..i] == files[..i];
  }

  /** The constructor's loop (index.js:230-261). */
  method ModalOptions(files: seq<string>, vmName: string, parseDate: string -> int)
    returns (options: seq<Option<BackupOption>>)
    ensures options == OptionsOf(files, vmName, parseDate)
    ensures |options| <= |files|
  {
    options := [];
    for i := 0 to |files|
      invariant options == OptionsOf(files[..i], vmName, parseDate)
      invariant |options| <= i
    {
      var file := files[i];
      OptionsStep(files, i, vmName, parseDate);
      var backup: Option<BackupOption> := None;
      match Parse(file) {
        case None =>
        case Some(m) =>
          if m.name != vmName {
            assert OptionsOf(files[..i + 1], vmName, parseDate) == options;
            continue;
          }
          backup := Some(BackupOption(KindOf(m), parseDate(m.dateToken), file, m.tag));
      }
      assert OptionsOf(files[..i + 1], vmName, parseDate) == options + [backup];
      options := options + [backup];
    }
    assert files[..|files|] == files;
  }

  /** The dialog's value (index.js:267-276); the SR is identified by its id. */
  datatype ImportRequest = ImportRequest(backup: Option<BackupOption>, remoteId: string, sr: Option<string>, start: bool)

  /** What `doImport` decides to do. */
  datatype Plan =
    | MissingParameters
    | Import(kind: Kind, remote: string, sr: string, file: string, startAfter: bool)

  /** `doImport` (index.js:162-178). */
  function DoImport(req: ImportRequest): (p: Plan)
    ensures p.MissingParameters? <==> req.sr.None? || req.backup.None?
  {
    if req.sr.None? || req.backup.None? then MissingParameters
    else Import(req.backup.value.kind, req.remoteId, req.sr.value, req.backup.value.path, req.start)
  }

  /** The calls a plan makes, in order: notifications and the collaborators of the `xo` client. */
  datatype Effect =
    | ErrorNotice(title: string)
    | ImportStartNotice
    | ImportBackup(remote: string, sr: string, file: string)
    | ImportDeltaBackup(remote: string, sr: string, file: string)
    | StartImportedVm

  predicate IsImport(e: Effect) {
    e.ImportBackup? || e.ImportDeltaBackup?
  }

  predicate IsStart(e: Effect) {
    e.StartImportedVm?
  }

  /**
   * The effects of a plan: the error notification alone, or the start
   * notification, the import chosen by kind from `importMethods`, and a
   * start of the VM the import resolves to when `start` is set.
   */
  function Effects(p: Plan): (es: seq<Effect>)
    ensures p.MissingParameters? ==> |es| == 1 && es[0].ErrorNotice?
    ensures p.Import? ==> |es| == (if p.startAfter then 3 else 2) && es[0] == ImportStartNotice && IsImport(es[1])
    ensures p.Import? ==> es[1].remote == p.remote && es[1].sr == p.sr && es[1].file == p.file
    ensures p.Import? ==> (es[1].ImportDeltaBackup? <==> p.kind == Delta)
    ensures p.Import? && p.startAfter ==> es[2] == StartImportedVm
  {
    match p
    case MissingParameters => [ErrorNotice("Missing Parameters")]
    case Import(kind, remote, sr, file, start) =>
      var call := if kind == Delta then ImportDeltaBackup(remote, sr, file) else ImportBackup(remote, sr, file);
      [ImportStartNotice, call] + (if start then [StartImportedVm] else [])
  }

  /** The number of effects satisfying `f`. */
  function CountWhere(es: seq<Effect>, f: Effect -> bool): nat {
    if es == [] then 0 else (if f(es[0]) then 1 else 0) + CountWhere(es[1..], f)
  }

  /**
   * A restore without an SR or a backup makes no call at all; otherwise it
   * makes exactly one import, of the backup's own kind, of its path, from
   * the dialog's remote, and starts the imported VM, after the import, only
   * when `start` is set.
   */
  lemma DispatchCalls(req: ImportRequest)
    ensures var es := Effects(DoImport(req));
            var valid := req.sr.Some? && req.backup.Some?;
            && CountWhere(es, IsImport) == (if valid then 1 else 0)
            && CountWhere(es, IsStart) == (if valid && req.start then 1 else 0)
            && (forall i :: 0 <= i < |es| && IsImport(es[i]) ==>
                  && es[i].file == req.backup.value.path
                  && es[i].remote == req.remoteId
                  && es[i].sr == req.sr.value
                  && (es[i].ImportDeltaBackup? <==> req.backup.value.kind == Delta)
                  && forall j :: 0 <= j < |es| && es[j].StartImportedVm? ==> i < j)
  {
    var es := Effects(DoImport(req));
    if req.sr.Some? && req.backup.Some? {
      var tail := if req.start then [StartImportedVm] else [];
      assert es[1..][1..] == tail;
      if req.start {
        assert tail[1..] == [];
      }
      assert CountWhere(tail, IsImport) == 0;
      assert CountWhere(tail, IsStart) == (if req.start then 1 else 0);
    }
  }
}
