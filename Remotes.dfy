/**
 * The `Restore` component's list of remotes (src/xo-app/backup/restore/index.js:50-122):
 * the subscription that replaces the list and carries over already fetched
 * catalogs (lines 59-69), and `_list`, which stores a freshly built catalog
 * on the one remote it was asked for (lines 72-122).
 */
module Remotes {
  import opened Wrappers
  import opened Grammar
  import opened Catalog

  /** A remote as the registry feed delivers it. */
  datatype RawRemote = RawRemote(id: string, name: string, enabled: bool, error: Option<string>)

  /** A remote in the component's state: the feed's fields plus a fetched catalog, if any. */
  datatype Remote = Remote(
    id: string,
    name: string,
    enabled: bool,
    error: Option<string>,
    backupInfoByVm: Option<VmCatalog>)

  /** `isEmptyRemote` (index.js:36): no catalog fetched, or a catalog without VMs. */
  predicate IsEmptyRemote(r: Remote): (e: bool)
    ensures e <==> r.backupInfoByVm.None? || r.backupInfoByVm.value.Keys == {}
  {
    r.backupInfoByVm.None? || |r.backupInfoByVm.value| == 0
  }

  /** `find(remotes, {id})`: the index of the first remote with that id. */
  function FindById(rs: seq<Remote>, id: string): (k: Option<nat>)
    ensures k.Some? ==> k.value < |rs| && rs[k.value].id == id
    ensures k.Some? ==> forall j :: 0 <= j < k.value ==> rs[j].id != id
    ensures k.None? ==> forall j :: 0 <= j < |rs| ==> rs[j].id != id
  {
    if rs == [] then None
    else if rs[0].id == id then Some(0)
    else
      match FindById(rs[1..], id)
      case None => None
      case Some(k) => Some(k + 1)
  }

  /**
   * JavaScript's `a <= b` on strings, by which `orderBy` sorts: lexicographic,
   * so a prefix comes first and a longer string never precedes its prefix.
   */
  predicate NameBefore(a: string, b: string): (r: bool)
    ensures a <= b ==> r
    ensures b < a ==> !r
  {
    a == [] || (b != [] && (a[0] < b[0] || (a[0] == b[0] && NameBefore(a[1..], b[1..]))))
  }

  lemma {:induction false} NameBeforeReflexive(a: string)
    ensures NameBefore(a, a)
  {
    if a != [] {
      NameBeforeReflexive(a[1..]);
    }
  }

  lemma {:induction false} NameBeforeTotal(a: string, b: string)
    ensures NameBefore(a, b) || NameBefore(b, a)
  {
    if a != [] && b != [] && a[0] == b[0] {
      NameBeforeTotal(a[1..], b[1..]);
    }
  }

  lemma {:induction false} NameBeforeTransitive(a: string, b: string, c: string)
    requires NameBefore(a, b) && NameBefore(b, c)
    ensures NameBefore(a, c)
  {
    if a != [] && b != [] && c != [] && a[0] == b[0] && b[0] == c[0] {
      NameBeforeTransitive(a[1..], b[1..], c[1..]);
    }
  }

  ghost predicate SortedByName(s: seq<Remote>) {
    forall i, j :: 0 <= i < j < |s| ==> NameBefore(s[i].name, s[j].name)
  }

  /** The remotes of `s` named `name`, in order. */
  function WithName(s: seq<Remote>, name: string): seq<Remote> {
    if s == [] then []
    else (if s[0].name == name then [s[0]] else []) + WithName(s[1..], name)
  }

  /** Puts `x` before the first remote whose name is not below its own. */
  function InsertByName(x: Remote, s: seq<Remote>): seq<Remote> {
    if s == [] || NameBefore(x.name, s[0].name) then [x] + s
    else [s[0]] + InsertByName(x, s[1..])
  }

  lemma {:induction false} InsertMultiset(x: Remote, s: seq<Remote>)
    ensures multiset(InsertByName(x, s)) == multiset{x} + multiset(s)
  {
    if s != [] && !NameBefore(x.name, s[0].name) {
      InsertMultiset(x, s[1..]);
      assert s == [s[0]] + s[1..];
    }
  }

  lemma {:induction false} InsertSorted(x: Remote, s: seq<Remote>)
    requires SortedByName(s)
    ensures SortedByName(InsertByName(x, s))
  {
    var r := InsertByName(x, s);
    if s == [] {
    } else if NameBefore(x.name, s[0].name) {
      forall i, j | 0 <= i < j < |r| ensures NameBefore(r[i].name, r[j].name) {
        if i == 0 && j > 1 {
          NameBeforeTransitive(x.name, s[0].name, s[j - 1].name);
        }
      }
    } else {
      var rest := InsertByName(x, s[1..]);
      InsertSorted(x, s[1..]);
      InsertMultiset(x, s[1..]);
      NameBeforeTotal(x.name, s[0].name);
      forall i, j | 0 <= i < j < |r| ensures NameBefore(r[i].name, r[j].name) {
        if i == 0 {
          assert r[j] == rest[j - 1];
          assert rest[j - 1] in multiset(rest);
          assert r[j] == x || r[j] in s[1..];
          if r[j] != x {
            var k :| 0 <= k < |s[1..]| && s[1..][k] == r[j];
            assert s[k + 1] == r[j];
          }
        }
      }
    }
  }

  lemma {:induction false} InsertWithName(x: Remote, s: seq<Remote>, name: string)
    ensures WithName(InsertByName(x, s), name)
         == (if x.name == name then [x] else []) + WithName(s, name)
  {
    if s == [] || NameBefore(x.name, s[0].name) {
      assert InsertByName(x, s)[1..] == s;
    } else {
      NameBeforeReflexive(x.name);
      InsertWithName(x, s[1..], name);
      assert InsertByName(x, s)[1..] == InsertByName(x, s[1..]);
    }
  }

  /**
   * `orderBy(remotes, ['name'])`: a stable sort by name.  The result is
   * ordered, a permutation of the input, and remotes that share a name keep
   * their relative order.
   */
  function SortByName(s: seq<Remote>): (r: seq<Remote>)
    ensures SortedByName(r)
    ensures multiset(r) == multiset(s)
    ensures forall name :: WithName(r, name) == WithName(s, name)
  {
    if s == [] then []
    else
      var rest := SortByName(s[1..]);
      InsertSorted(s[0], rest);
      InsertMultiset(s[0], rest);
      assert s == [s[0]] + s[1..];
      assert forall name :: WithName(InsertByName(s[0], rest), name) == WithName(s, name) by {
        forall name ensures WithName(InsertByName(s[0], rest), name) == WithName(s, name) {
          InsertWithName(s[0], rest, name);
        }
      }
      InsertByName(s[0], rest)
  }

  /** The catalog the remote with id `id` had in `older`, found as `find` finds it. */
  function PriorCatalog(older: seq<Remote>, id: string): Option<VmCatalog> {
    match FindById(older, id)
    case None => None
    case Some(i) => older[i].backupInfoByVm
  }

  /** The subscription's per-remote step (index.js:62-66): copy, and carry over the old catalog. */
  function Carry(older: seq<Remote>, r: RawRemote): (c: Remote)
    ensures c.id == r.id && c.name == r.name && c.enabled == r.enabled && c.error == r.error
    ensures forall i :: 0 <= i < |older| && older[i].id == r.id && (forall j :: 0 <= j < i ==> older[j].id != r.id)
              ==> c.backupInfoByVm == older[i].backupInfoByVm
    ensures (forall i :: 0 <= i < |older| ==> older[i].id != r.id) ==> c.backupInfoByVm.None?
  {
    Remote(r.id, r.name, r.enabled, r.error, PriorCatalog(older, r.id))
  }

  function Carried(older: seq<Remote>, raw: seq<RawRemote>): (r: seq<Remote>)
    ensures |r| == |raw|
    ensures forall k :: 0 <= k < |raw| ==> r[k] == Carry(older, raw[k])
  {
    seq(|raw|, k requires 0 <= k < |raw| => Carry(older, raw[k]))
  }

  /** The new remote list (index.js:62-67): `orderBy(map(rawRemotes, carry), ['name'])`. */
  function Merge(older: seq<Remote>, raw: seq<RawRemote>): (r: seq<Remote>)
    ensures SortedByName(r)
    ensures multiset(r) == multiset(Carried(older, raw))
  {
    SortByName(Carried(older, raw))
  }

  /**
   * The merged list holds exactly the new list's remotes, each with the
   * feed's fields, ordered by name, with same-named remotes in feed order.
   */
  lemma MergeRemotes(older: seq<Remote>, raw: seq<RawRemote>)
    ensures var merged := Merge(older, raw);
            && |merged| == |raw|
            && SortedByName(merged)
            && multiset(merged) == multiset(Carried(older, raw))
            && (forall name :: WithName(merged, name) == WithName(Carried(older, raw), name))
            && (forall m :: m in merged <==> exists k :: 0 <= k < |raw| && m == Carry(older, raw[k]))
  {
    var merged, carried := Merge(older, raw), Carried(older, raw);
    assert |multiset(merged)| == |multiset(carried)|;
    forall m ensures m in merged <==> exists k :: 0 <= k < |raw| && m == Carry(older, raw[k]) {
      assert m in merged <==> m in multiset(carried);
      if m in carried {
        var k :| 0 <= k < |carried| && carried[k] == m;
        assert m == Carry(older, raw[k]);
      }
    }
  }

  /**
   * A merged remote has a catalog exactly when the first older remote with
   * its id had one, and then it is that catalog; new remotes have none.
   */
  lemma MergeCatalogs(older: seq<Remote>, raw: seq<RawRemote>, m: Remote)
    requires m in Merge(older, raw)
    ensures m.backupInfoByVm == PriorCatalog(older, m.id)
    ensures (forall j :: 0 <= j < |older| ==> older[j].id != m.id) ==> m.backupInfoByVm.None?
  {
    MergeRemotes(older, raw);
  }

  /** A remote that reappears in the feed keeps the catalog already fetched for it. */
  lemma MergeKeepsCatalog(older: seq<Remote>, raw: seq<RawRemote>, i: nat, k: nat)
    requires i < |older| && k < |raw|
    requires raw[k].id == older[i].id
    requires forall j :: 0 <= j < i ==> older[j].id != older[i].id
    ensures Carry(older, raw[k]) in Merge(older, raw)
    ensures Carry(older, raw[k]).backupInfoByVm == older[i].backupInfoByVm
  {
    MergeRemotes(older, raw);
  }

  /**
   * Storing a catalog (index.js:75-76 and 119): only the first remote with
   * the requested id gets it; if there is none, nothing changes.
   */
  function WithCatalog(rs: seq<Remote>, id: string, catalog: VmCatalog): (r: seq<Remote>)
    ensures |r| == |rs|
    ensures forall j :: 0 <= j < |rs| ==> r[j].id == rs[j].id && r[j].name == rs[j].name
    ensures FindById(rs, id).None? ==> r == rs
    ensures forall j :: 0 <= j < |rs| && rs[j].id != id ==> r[j] == rs[j]
    ensures forall j :: 0 <= j < |rs| && FindById(rs, id) != Some(j) ==> r[j] == rs[j]
    ensures FindById(rs, id).Some? ==>
              r[FindById(rs, id).value] == rs[FindById(rs, id).value].(backupInfoByVm := Some(catalog))
  {
    match FindById(rs, id)
    case None => rs
    case Some(i) => rs[i := rs[i].(backupInfoByVm := Some(catalog))]
  }

  /** After a refresh the remote is empty exactly when no entry of its listing parses. */
  lemma RefreshedEmptyIff(rs: seq<Remote>, id: string, files: seq<string>, parseDate: string -> int)
    requires FindById(rs, id).Some?
    ensures var r := WithCatalog(rs, id, CatalogOf(id, files, parseDate));
            (IsEmptyRemote(r[FindById(rs, id).value]) <==>
             forall i :: 0 <= i < |files| ==> Parse(files[i]).None?)
  {
    EmptyCatalogIff(id, files, parseDate);
  }

  /** A catalog fetched by a refresh survives every later remote-list update that keeps the remote. */
  lemma RefreshSurvivesMerge(rs: seq<Remote>, id: string, catalog: VmCatalog, raw: seq<RawRemote>, m: Remote)
    requires FindById(rs, id).Some?
    requires m in Merge(WithCatalog(rs, id, catalog), raw)
    requires m.id == id
    ensures m.backupInfoByVm == Some(catalog)
  {
    var rs' := WithCatalog(rs, id, catalog);
    var i := FindById(rs, id).value;
    assert FindById(rs', id) == Some(i) by {
      assert rs'[i].id == id;
    }
    MergeCatalogs(rs', raw, m);
  }

  /** The `Restore` component; `remotes` is `this.state.remotes`. */
  class Restore {
    var remotes: seq<Remote>

    constructor ()
      ensures remotes == []
    {
      remotes := [];
    }

    /** The `subscribeRemotes` callback (index.js:59-69). */
    method ReceiveRemotes(raw: seq<RawRemote>)
      modifies this
      ensures remotes == Merge(old(remotes), raw)
    {
      remotes := Merge(remotes, raw);
    }

    /**
     * `_list` once `listRemote(id)` has delivered `files` (index.js:72-122):
     * build the catalog and store it on the first remote with that id.
     */
    method ListBackups(id: string, files: seq<string>, parseDate: string -> int)
      modifies this
      ensures remotes == WithCatalog(old(remotes), id, CatalogOf(id, files, parseDate))
    {
      var found := FindById(remotes, id);
      if found.Some? {
        var remote := remotes[found.value];
        var catalog := BuildCatalog(remote.id, files, parseDate);
        remotes := remotes[found.value := remote.(backupInfoByVm := Some(catalog))];
      }
    }
  }
}
