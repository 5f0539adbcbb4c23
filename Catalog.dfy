/**
 * The per-remote backup catalog built by `_list`
 * (src/xo-app/backup/restore/index.js:72-122): every listing entry that
 * parses becomes a backup record, records are grouped by VM name in
 * listing order, and each group is reduced to its latest backup and its
 * simple/delta counts.
 */
module Catalog {
  import opened Wrappers
  import opened Grammar
  import opened Lists

  /** A backup record as `_list` builds it; `id` is set for delta backups only. */
  datatype Backup = Backup(
    kind: Kind,
    date: int,
    id: Option<string>,
    name: string,
    path: string,
    tag: string,
    remoteId: string)

  /** The value stored per VM: `{last, simpleCount, deltaCount}`. */
  datatype Summary = Summary(last: Backup, simpleCount: nat, deltaCount: nat)

  /** The catalog of one remote, keyed by VM name. */
  type VmCatalog = map<string, Summary>

  /** The record built for one listing entry (index.js:79-105). */
  function RecordOf(remoteId: string, file: string, parseDate: string -> int): (b: Option<Backup>)
    ensures b.Some? <==> Parse(file).Some?
    ensures b.Some? ==> b.value.path == file && b.value.remoteId == remoteId
    ensures b.Some? ==> b.value.name == Parse(file).value.name
  {
    match Parse(file)
    case None => None
    case Some(DeltaMatch(tag, id, date, name)) =>
      Some(Backup(Delta, parseDate(date), Some(id), name, file, tag, remoteId))
    case Some(SimpleMatch(date, tag, name)) =>
      Some(Backup(Simple, parseDate(date), None, name, file, tag, remoteId))
  }

  /**
   * An entry matching the delta grammar gives a delta record whose captures
   * are those of the decomposition with the longest tag.
   */
  lemma DeltaRecord(remoteId: string, file: string, parseDate: string -> int, m: Match)
    requires DeltaGrammar(file, m)
    requires forall m' :: DeltaGrammar(file, m') ==> |m'.tag| <= |m.tag|
    ensures RecordOf(remoteId, file, parseDate)
         == Some(Backup(Delta, parseDate(m.dateToken), Some(m.id), m.name, file, m.tag, remoteId))
  {
    ParseDeltaEntry(file, m);
  }

  /** An entry matching only the simple grammar gives a simple record. */
  lemma SimpleRecord(remoteId: string, file: string, parseDate: string -> int, m: Match)
    requires forall m' :: !DeltaGrammar(file, m')
    requires SimpleGrammar(file, m)
    ensures RecordOf(remoteId, file, parseDate)
         == Some(Backup(Simple, parseDate(m.dateToken), None, m.name, file, m.tag, remoteId))
  {
    ParseSimpleEntry(file, m);
  }

  /** An entry matching neither grammar gives no record and no error. */
  lemma UnmatchedRecord(remoteId: string, file: string, parseDate: string -> int)
    requires forall m :: !DeltaGrammar(file, m) && !SimpleGrammar(file, m)
    ensures RecordOf(remoteId, file, parseDate) == None
  {
    ParseNoneIff(file);
  }

  /** `RecordOf` for one remote, as the function the listing is filtered through. */
  function RecordFn(remoteId: string, parseDate: string -> int): string -> Option<Backup> {
    file => RecordOf(remoteId, file, parseDate)
  }

  /** The records of a listing, in listing order. */
  function Records(remoteId: string, files: seq<string>, parseDate: string -> int): seq<Backup> {
    FilterMap(files, RecordFn(remoteId, parseDate))
  }

  /** A record is among the listing's records exactly when some entry produced it. */
  lemma RecordsMember(remoteId: string, files: seq<string>, parseDate: string -> int, b: Backup)
    ensures b in Records(remoteId, files, parseDate)
        <==> exists i :: 0 <= i < |files| && RecordOf(remoteId, files[i], parseDate) == Some(b)
  {
    FilterMapMember(files, RecordFn(remoteId, parseDate), b);
  }

  /** The records named `name`, in listing order: the group `push` builds. */
  function Group(recs: seq<Backup>, name: string): (g: seq<Backup>)
    ensures forall b :: b in g <==> b in recs && b.name == name
  {
    if recs == [] then []
    else
      var last := recs[|recs| - 1];
      Group(recs[..|recs| - 1], name) + (if last.name == name then [last] else [])
  }

  function Names(recs: seq<Backup>): set<string> {
    set b | b in recs :: b.name
  }

  /** The dictionary of groups after the `forEach` loop (index.js:106-109). */
  function GroupsOf(recs: seq<Backup>): (g: map<string, seq<Backup>>)
    ensures g.Keys == Names(recs)
    ensures forall n :: n in g ==> |g[n]| > 0
  {
    var g := map n | n in Names(recs) :: Group(recs, n);
    assert forall n :: n in g ==> |g[n]| > 0 by {
      forall n | n in g ensures |g[n]| > 0 {
        var b :| b in recs && b.name == n;
        assert b in Group(recs, n);
      }
    }
    g
  }

  lemma GroupEmptyIff(recs: seq<Backup>, name: string)
    ensures Group(recs, name) == [] <==> name !in Names(recs)
  {
    var g := Group(recs, name);
    if g != [] {
      assert g[0] in g;
    }
    if name in Names(recs) {
      var b :| b in recs && b.name == name;
      assert b in g;
    }
  }

  /**
   * Appending a record to the listing appends it to the group of its name
   * and leaves every other group as it was.
   */
  lemma GroupsAppend(recs: seq<Backup>, b: Backup)
    ensures GroupsOf(recs + [b])
         == GroupsOf(recs)[b.name := (if b.name in GroupsOf(recs) then GroupsOf(recs)[b.name] else []) + [b]]
  {
    var recs' := recs + [b];
    var g, g' := GroupsOf(recs), GroupsOf(recs');
    var h := g[b.name := (if b.name in g then g[b.name] else []) + [b]];
    NamesAppend(recs, b);
    assert g'.Keys == h.Keys;
    forall n | n in g'
      ensures g'[n] == h[n]
    {
      GroupAppend(recs, b, n);
      if n == b.name {
        GroupEmptyIff(recs, n);
      }
    }
  }

  lemma NamesAppend(recs: seq<Backup>, b: Backup)
    ensures Names(recs + [b]) == Names(recs) + {b.name}
  {
  }

  lemma GroupAppend(recs: seq<Backup>, b: Backup, n: string)
    ensures Group(recs + [b], n) == Group(recs, n) + (if b.name == n then [b] else [])
  {
    assert (recs + [b])[..|recs|] == recs;
  }

  /**
   * The latest record of a group: `reduce(bks, (last, b) => b.date >
   * last.date ? b : last)`, a left fold seeded with the first record.
   */
  function Last(bks: seq<Backup>): (r: Backup)
    requires |bks| > 0
    ensures r in bks
    ensures forall b :: b in bks ==> b.date <= r.date
  {
    if |bks| == 1 then bks[0]
    else
      var prev := Last(bks[..|bks| - 1]);
      var b := bks[|bks| - 1];
      assert forall x :: x in bks ==> x in bks[..|bks| - 1] || x == b;
      if b.date > prev.date then b else prev
  }

  /**
   * Ties go to the earliest record: the record with the greatest date that
   * no earlier record equals is the one chosen.
   */
  lemma {:induction false} LastIsFirstMaximum(bks: seq<Backup>, k: nat)
    requires k < |bks|
    requires forall j :: 0 <= j < |bks| ==> bks[j].date <= bks[k].date
    requires forall j :: 0 <= j < k ==> bks[j].date < bks[k].date
    ensures Last(bks) == bks[k]
  {
    if |bks| > 1 {
      var init := bks[..|bks| - 1];
      if k == |bks| - 1 {
        var prev := Last(init);
        var j :| 0 <= j < |init| && init[j] == prev;
        assert bks[j] == prev;
      } else {
        LastIsFirstMaximum(init, k);
      }
    }
  }

  /** The `type` of every record, in order. */
  function Kinds(bks: seq<Backup>): seq<Kind> {
    seq(|bks|, i requires 0 <= i < |bks| => bks[i].kind)
  }

  /**
   * `reduce(bks, (sum, b) => b.type === kind ? ++sum : sum, 0)`: the number
   * of records of that kind.
   */
  function CountKind(bks: seq<Backup>, kind: Kind): (n: nat)
    ensures n == multiset(Kinds(bks))[kind]
  {
    if bks == [] then 0
    else
      var init := bks[..|bks| - 1];
      assert Kinds(bks) == Kinds(init) + [bks[|bks| - 1].kind];
      CountKind(init, kind) + (if bks[|bks| - 1].kind == kind then 1 else 0)
  }

  lemma {:induction false} CountsCoverGroup(bks: seq<Backup>)
    ensures CountKind(bks, Simple) + CountKind(bks, Delta) == |bks|
  {
    if bks != [] {
      CountsCoverGroup(bks[..|bks| - 1]);
    }
  }

  /** The summary that replaces a group in the `for...in` loop (index.js:111-118). */
  function Summarize(bks: seq<Backup>): (s: Summary)
    requires |bks| > 0
    ensures s.last in bks
    ensures forall b :: b in bks ==> b.date <= s.last.date
    ensures s.simpleCount + s.deltaCount == |bks|
  {
    CountsCoverGroup(bks);
    Summary(Last(bks), CountKind(bks, Simple), CountKind(bks, Delta))
  }

  /** The catalog `_list` computes for a listing. */
  function CatalogOf(remoteId: string, files: seq<string>, parseDate: string -> int): (c: VmCatalog)
    ensures c.Keys == Names(Records(remoteId, files, parseDate))
    ensures forall n :: n in c ==> c[n].last.name == n
    ensures forall n :: n in c ==>
              c[n].simpleCount + c[n].deltaCount == |Group(Records(remoteId, files, parseDate), n)|
  {
    var g := GroupsOf(Records(remoteId, files, parseDate));
    Summaries(g, g.Keys)
  }

  /**
   * `_list`'s first loop (index.js:77-110): parse every entry and `push`
   * each record onto the group of its name, in listing order.
   */
  method GroupRecords(remoteId: string, files: seq<string>, parseDate: string -> int)
    returns (groups: map<string, seq<Backup>>)
    ensures groups == GroupsOf(Records(remoteId, files, parseDate))
  {
    groups := map[];
    var i := 0;
    while i < |files|
      invariant i <= |files|
      invariant groups == GroupsOf(Records(remoteId, files[..i], parseDate))
    {
      var backup := RecordOf(remoteId, files[i], parseDate);
      ghost var next := GroupsOf(Records(remoteId, files[..i + 1], parseDate));
      GroupsStep(remoteId, files, i, parseDate);
      if backup.Some? {
        var b := backup.value;
        var bucket := if b.name in groups then groups[b.name] else [];
        groups := groups[b.name := bucket + [b]];
      }
      i := i + 1;
    }
    assert files[..i] == files;
  }

  /** One turn of the first loop: the entry's record, if any, is pushed onto its group. */
  lemma GroupsStep(remoteId: string, files: seq<string>, i: nat, parseDate: string -> int)
    requires i < |files|
    ensures var b := RecordOf(remoteId, files[i], parseDate);
            var g := GroupsOf(Records(remoteId, files[..i], parseDate));
            var g' := GroupsOf(Records(remoteId, files[..i + 1], parseDate));
            && (b.None? ==> g' == g)
            && (b.Some? ==> g' == g[b.value.name := (if b.value.name in g then g[b.value.name] else []) + [b.value]])
  {
    var recs := Records(remoteId, files[..i], parseDate);
    var recs' := Records(remoteId, files[..i + 1], parseDate);
    var b := RecordOf(remoteId, files[i], parseDate);
    RecordsStep(remoteId, files, i, parseDate);
    if b.Some? {
      assert recs' == recs + [b.value];
      GroupsAppend(recs, b.value);
    } else {
      assert recs' == recs;
    }
  }

  lemma RecordsStep(remoteId: string, files: seq<string>, i: nat, parseDate: string -> int)
    requires i < |files|
    ensures var b := RecordOf(remoteId, files[i], parseDate);
            Records(remoteId, files[..i + 1], parseDate)
              == Records(remoteId, files[..i], parseDate) + (if b.Some? then [b.value] else [])
  {
    assert files[..i + 1][..i] == files[..i];
  }

  /**
   * `_list`'s second loop (index.js:111-118): overwrite every group with
   * its summary, one key at a time.
   */
  method SummarizeGroups(groups: map<string, seq<Backup>>) returns (catalog: VmCatalog)
    requires forall n :: n in groups ==> |groups[n]| > 0
    ensures catalog == Summaries(groups, groups.Keys)
  {
    catalog := map[];
    var pending := groups.Keys;
    ghost var done: set<string> := {};
    while pending != {}
      invariant done !! pending && done + pending == groups.Keys
      invariant catalog == Summaries(groups, done)
      decreases |pending|
    {
      var vm :| vm in pending;
      SummariesStep(groups, done, vm);
      catalog := catalog[vm := Summarize(groups[vm])];
      done := done + {vm};
      pending := pending - {vm};
    }
  }

  /** The summaries of the groups named in `done`, each under its own name. */
  function Summaries(groups: map<string, seq<Backup>>, done: set<string>): VmCatalog
    requires forall n :: n in groups ==> |groups[n]| > 0
    requires done <= groups.Keys
  {
    map n | n in done :: Summarize(groups[n])
  }

  lemma SummariesStep(groups: map<string, seq<Backup>>, done: set<string>, vm: string)
    requires forall n :: n in groups ==> |groups[n]| > 0
    requires done <= groups.Keys && vm in groups
    ensures Summaries(groups, done)[vm := Summarize(groups[vm])] == Summaries(groups, done + {vm})
  {
  }

  /** The whole of `_list`'s catalog computation. */
  method BuildCatalog(remoteId: string, files: seq<string>, parseDate: string -> int) returns (catalog: VmCatalog)
    ensures catalog == CatalogOf(remoteId, files, parseDate)
  {
    var groups := GroupRecords(remoteId, files, parseDate);
    catalog := SummarizeGroups(groups);
  }

  /** The catalog's keys are exactly the names of the entries that parse. */
  lemma CatalogKeys(remoteId: string, files: seq<string>, parseDate: string -> int, name: string)
    ensures name in CatalogOf(remoteId, files, parseDate)
        <==> exists i :: 0 <= i < |files| && Parse(files[i]).Some? && Parse(files[i]).value.name == name
  {
    var recs := Records(remoteId, files, parseDate);
    if name in CatalogOf(remoteId, files, parseDate) {
      var b :| b in recs && b.name == name;
      RecordsMember(remoteId, files, parseDate, b);
    }
    if i :| 0 <= i < |files| && Parse(files[i]).Some? && Parse(files[i]).value.name == name {
      var b := RecordOf(remoteId, files[i], parseDate).value;
      RecordsMember(remoteId, files, parseDate, b);
      assert b in recs && b.name == name;
    }
  }

  /**
   * Every summary describes the group of its key: the latest record is a
   * record of that VM from this listing, no record of the group is later,
   * and the counts add up to the group's size.
   */
  lemma CatalogSummary(remoteId: string, files: seq<string>, parseDate: string -> int, name: string)
    requires name in CatalogOf(remoteId, files, parseDate)
    ensures var s := CatalogOf(remoteId, files, parseDate)[name];
            var g := Group(Records(remoteId, files, parseDate), name);
            && s == Summarize(g)
            && s.last.name == name && s.last.remoteId == remoteId && s.last.path in files
            && (forall b :: b in g ==> b.date <= s.last.date)
            && s.simpleCount + s.deltaCount == |g|
            && s.simpleCount == CountKind(g, Simple) && s.deltaCount == CountKind(g, Delta)
  {
    var recs := Records(remoteId, files, parseDate);
    var s := CatalogOf(remoteId, files, parseDate)[name];
    RecordsMember(remoteId, files, parseDate, s.last);
  }

  /** An entry that parses to nothing changes nothing, wherever it stands. */
  lemma UnmatchedSkipped(remoteId: string, a: seq<string>, f: string, b: seq<string>, parseDate: string -> int)
    requires Parse(f).None?
    ensures CatalogOf(remoteId, a + [f] + b, parseDate) == CatalogOf(remoteId, a + b, parseDate)
  {
    var g := RecordFn(remoteId, parseDate);
    assert g(f) == None;
    FilterMapSkip(a, f, b, g);
  }

  /** The listing yields no record exactly when no entry parses. */
  lemma RecordsEmptyIff(remoteId: string, files: seq<string>, parseDate: string -> int)
    ensures Records(remoteId, files, parseDate) == []
        <==> forall i :: 0 <= i < |files| ==> RecordOf(remoteId, files[i], parseDate).None?
  {
    var recs := Records(remoteId, files, parseDate);
    if recs != [] {
      RecordsMember(remoteId, files, parseDate, recs[0]);
    }
    if i :| 0 <= i < |files| && RecordOf(remoteId, files[i], parseDate).Some? {
      RecordsMember(remoteId, files, parseDate, RecordOf(remoteId, files[i], parseDate).value);
    }
  }

  /** A remote's catalog is empty exactly when no entry of its listing parses. */
  lemma EmptyCatalogIff(remoteId: string, files: seq<string>, parseDate: string -> int)
    ensures |CatalogOf(remoteId, files, parseDate)| == 0
        <==> forall i :: 0 <= i < |files| ==> Parse(files[i]).None?
  {
    var recs := Records(remoteId, files, parseDate);
    var c := CatalogOf(remoteId, files, parseDate);
    RecordsEmptyIff(remoteId, files, parseDate);
    assert c.Keys == Names(recs);
    if recs != [] {
      assert recs[0].name in c.Keys;
    }
    assert (forall i :: 0 <= i < |files| ==> RecordOf(remoteId, files[i], parseDate).None?)
       <==> (forall i :: 0 <= i < |files| ==> Parse(files[i]).None?);
  }
}
