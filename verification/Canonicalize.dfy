/**
 * Merging the two identities of a project that was saved both by a link and by its
 * real path (scripts/canonicalizza-progetti.ts, first phase).
 */
module Canonicalize {
  import opened Int32
  import opened Options

  type Path = string

  // ----- identities ---------------------------------------------------------------------

  /** The djb2 loop that shared/board.ts and shared/project-keys.ts both run. */
  function Djb2(path: Path): int {
    if path == "" then 0
    else NextHash(Djb2(path[..|path| - 1]), path[|path| - 1])
  }

  function NextHash(hash: int, c: char): int {
    ToInt32(ToInt32(hash * 32) - hash + c as int)
  }

  /** `projectHash`, as the number whose base-36 digits it returns. */
  function ProjectHash(path: Path): nat {
    var hash := Djb2(path);
    if hash < 0 then -hash else hash
  }

  /** The hash without any wrapping: each character after 31 times what came before. */
  function Unwrapped(path: Path): nat {
    if path == "" then 0 else 31 * Unwrapped(path[..|path| - 1]) + path[|path| - 1] as int
  }

  /** Wrapping at every step of the loop is wrapping once at its end, so the hash is base 31 modulo 2^32. */
  lemma {:induction false} HashIsBaseThirtyOne(path: Path)
    ensures Djb2(path) == ToInt32(Unwrapped(path))
  {
    if path != "" {
      var init, c := path[..|path| - 1], path[|path| - 1] as int;
      HashIsBaseThirtyOne(init);
      OneStepWraps(Unwrapped(init), c);
    }
  }

  lemma OneStepWraps(u: int, c: int)
    ensures var hash := ToInt32(u); ToInt32(ToInt32(hash * 32) - hash + c) == ToInt32(31 * u + c)
  {
    var hash := ToInt32(u);
    var outer := WrappingIsModular(u);
    var inner := WrappingIsModular(hash * 32);
    WholeTurnsWrapAway(31 * u + c, -(31 * outer + inner));
    assert ToInt32(hash * 32) - hash + c == 31 * u + c + -(31 * outer + inner) * 0x1_0000_0000;
  }

  method HashPath(path: Path) returns (h: nat)
    ensures h == ProjectHash(path)
    ensures h as int == ToInt32(Unwrapped(path)) || h as int == -ToInt32(Unwrapped(path))
  {
    HashIsBaseThirtyOne(path);
    var hash := 0;
    for i := 0 to |path|
      invariant hash == Djb2(path[..i])
    {
      assert path[..i + 1][..i] == path[..i];
      hash := ToInt32(ToInt32(hash * 32) - hash + path[i] as int);
    }
    assert path[..|path|] == path;
    h := if hash < 0 then -hash else hash;
  }

  predicate IsSeparator(c: char) {
    c == '/' || c == '\\'
  }

  function WithoutTrailingSeparators(path: Path): Path {
    if path != "" && IsSeparator(path[|path| - 1]) then WithoutTrailingSeparators(path[..|path| - 1]) else path
  }

  function LastPart(path: Path): Path {
    if path == "" || IsSeparator(path[|path| - 1]) then "" else LastPart(path[..|path| - 1]) + [path[|path| - 1]]
  }

  /** The board of a path: the folder name, and the hash of the whole path in at most six base-36 digits. */
  datatype ProjectId = ProjectId(dirName: string, hash: nat)

  function ProjectIdForPath(path: Path): ProjectId {
    var dirName := LastPart(WithoutTrailingSeparators(path));
    ProjectId(if dirName == "" then "project" else dirName, ProjectHash(path))
  }

  /** The board is named after the last folder, trailing separators of either kind apart, and `project` when there is none. */
  lemma BoardIsNamedAfterTheFolder(path: Path) returns (folder: Path, name: Path, end: Path)
    ensures path == folder + name + end
    ensures (forall c :: c in name ==> c != '/' && c != '\\') && (forall c :: c in end ==> c == '/' || c == '\\')
    ensures folder == "" || folder[|folder| - 1] == '/' || folder[|folder| - 1] == '\\'
    ensures name == "" ==> folder == ""
    ensures ProjectIdForPath(path).dirName == if name == "" then "project" else name
  {
    var bare;
    bare, end := TrailingSeparators(path);
    folder := LastPartIsLast(bare);
    name := LastPart(bare);
    assert path == bare + end;
  }

  lemma {:induction false} TrailingSeparators(path: Path) returns (bare: Path, end: Path)
    ensures bare == WithoutTrailingSeparators(path) && path == bare + end
    ensures forall c :: c in end ==> IsSeparator(c)
    ensures bare == "" || !IsSeparator(bare[|bare| - 1])
  {
    if path != "" && IsSeparator(path[|path| - 1]) {
      bare, end := TrailingSeparators(path[..|path| - 1]);
      end := end + [path[|path| - 1]];
    } else {
      bare, end := path, "";
    }
  }

  lemma {:induction false} LastPartIsLast(path: Path) returns (folder: Path)
    ensures path == folder + LastPart(path) && forall c :: c in LastPart(path) ==> !IsSeparator(c)
    ensures folder == "" || IsSeparator(folder[|folder| - 1])
    ensures path != "" && !IsSeparator(path[|path| - 1]) ==> LastPart(path) != ""
  {
    if path == "" || IsSeparator(path[|path| - 1]) {
      folder := path;
    } else {
      folder := LastPartIsLast(path[..|path| - 1]);
      assert path == path[..|path| - 1] + [path[|path| - 1]];
    }
  }

  /** The hash of any path fits in six base-36 digits, so cutting the id at six loses nothing. */
  lemma SixDigitsAreEnough(path: Path)
    ensures ProjectHash(path) <= TWO_31 < 36 * 36 * 36 * 36 * 36 * 36
  {
  }

  datatype Prefix = Panes | Layout

  datatype UiKey = ProjectKey(prefix: Prefix, hash: nat) | Plain(name: string)

  function KeyOf(prefix: Prefix, path: Path): UiKey {
    ProjectKey(prefix, ProjectHash(path))
  }

  // ----- the database -----------------------------------------------------------------------

  /** Topics with the path they are bound to, tasks with their board, and the per-project UI rows. */
  datatype Tables = Tables(topics: map<int, Option<Path>>, tasks: map<int, ProjectId>, ui: map<UiKey, string>)

  datatype MergeCase = MergeCase(oldPath: Path, newPath: Path)

  function SavedPaths(t: Tables): set<Path> {
    set topic | topic in t.topics && t.topics[topic].Some? && t.topics[topic].value != "" :: t.topics[topic].value
  }

  function Rebind<K, V(==)>(rows: map<K, V>, was: V, becomes: V): map<K, V> {
    map k | k in rows :: if rows[k] == was then becomes else rows[k]
  }

  /** The old row takes the new key; where both exist the new one stays and the old one goes. */
  function MoveKey(ui: map<UiKey, string>, oldKey: UiKey, newKey: UiKey): map<UiKey, string> {
    if oldKey !in ui then ui
    else if newKey !in ui then (ui - {oldKey})[newKey := ui[oldKey]]
    else ui - {oldKey}
  }

  function MoveKeys(ui: map<UiKey, string>, c: MergeCase): map<UiKey, string> {
    MoveKey(MoveKey(ui, KeyOf(Panes, c.oldPath), KeyOf(Panes, c.newPath)), KeyOf(Layout, c.oldPath), KeyOf(Layout, c.newPath))
  }

  function AfterCase(t: Tables, c: MergeCase): Tables {
    Tables(Rebind(t.topics, Some(c.oldPath), Some(c.newPath)),
           Rebind(t.tasks, ProjectIdForPath(c.oldPath), ProjectIdForPath(c.newPath)),
           MoveKeys(t.ui, c))
  }

  function AfterCases(t: Tables, cs: seq<MergeCase>): Tables {
    if cs == [] then t else AfterCase(AfterCases(t, cs[..|cs| - 1]), cs[|cs| - 1])
  }

  /** The saved paths that are links, each once, in whatever order the rows came. */
  ghost predicate AreTheCases(cs: seq<MergeCase>, t: Tables, canonical: Path -> Path) {
    && (forall c :: c in cs ==> c.oldPath in SavedPaths(t) && c.newPath == canonical(c.oldPath) != c.oldPath)
    && (forall p :: p in SavedPaths(t) && canonical(p) != p ==> MergeCase(p, canonical(p)) in cs)
    && (forall i, j :: 0 <= i < j < |cs| ==> cs[i] != cs[j])
  }

  class Database {
    var topics: map<int, Option<Path>>
    var tasks: map<int, ProjectId>
    var ui: map<UiKey, string>

    function Contents(): Tables
      reads this
    {
      Tables(topics, tasks, ui)
    }

    constructor (t: Tables)
      ensures Contents() == t
    {
      topics, tasks, ui := t.topics, t.tasks, t.ui;
    }

    method FindCases(canonical: Path -> Path) returns (cases: seq<MergeCase>)
      ensures AreTheCases(cases, Contents(), canonical)
      ensures forall c :: c in cases <==>
                && c.oldPath != "" && (exists topic :: topic in topics && topics[topic] == Some(c.oldPath))
                && c.newPath == canonical(c.oldPath) && c.newPath != c.oldPath
      ensures forall i, j :: 0 <= i < j < |cases| ==> cases[i].oldPath != cases[j].oldPath
    {
      cases := [];
      var todo := SavedPaths(Contents());
      while todo != {}
        invariant todo <= SavedPaths(Contents())
        invariant forall c :: c in cases ==>
                    && c.oldPath in SavedPaths(Contents()) && c.oldPath !in todo
                    && c.newPath == canonical(c.oldPath) != c.oldPath
        invariant forall p :: p in SavedPaths(Contents()) && p !in todo && canonical(p) != p ==> MergeCase(p, canonical(p)) in cases
        invariant forall i, j :: 0 <= i < j < |cases| ==> cases[i] != cases[j]
        decreases todo
      {
        var p :| p in todo;
        todo := todo - {p};
        var newPath := canonical(p);
        if newPath == p { continue; }
        forall i | 0 <= i < |cases| ensures cases[i] != MergeCase(p, newPath) {
          assert cases[i] in cases;
        }
        cases := cases + [MergeCase(p, newPath)];
      }
    }

    method MoveUiRow(oldKey: UiKey, newKey: UiKey)
      modifies this`ui
      ensures ui == MoveKey(old(ui), oldKey, newKey)
    {
      if oldKey !in ui { return; }
      if newKey !in ui {
        ui := (ui - {oldKey})[newKey := ui[oldKey]];
      } else {
        ui := ui - {oldKey};
      }
    }

    /** The transaction. */
    method Migrate(cases: seq<MergeCase>)
      modifies this
      ensures Contents() == AfterCases(old(Contents()), cases)
    {
      for i := 0 to |cases|
        invariant Contents() == AfterCases(old(Contents()), cases[..i])
      {
        assert cases[..i + 1][..i] == cases[..i];
        var c := cases[i];
        tasks := Rebind(tasks, ProjectIdForPath(c.oldPath), ProjectIdForPath(c.newPath));
        topics := Rebind(topics, Some(c.oldPath), Some(c.newPath));
        MoveUiRow(KeyOf(Panes, c.oldPath), KeyOf(Panes, c.newPath));
        MoveUiRow(KeyOf(Layout, c.oldPath), KeyOf(Layout, c.newPath));
      }
      assert cases[..|cases|] == cases;
    }

    /** The script: a dry run lists the cases and writes nothing. */
    method Merge(canonical: Path -> Path, execute: bool) returns (cases: seq<MergeCase>)
      modifies this
      ensures AreTheCases(cases, old(Contents()), canonical)
      ensures Contents() == if execute then AfterCases(old(Contents()), cases) else old(Contents())
    {
      cases := FindCases(canonical);
      if execute && |cases| > 0 {
        Migrate(cases);
      }
    }
  }

  // ----- where the rows land ---------------------------------------------------------------------

  /** Resolving twice is resolving once. */
  ghost predicate Idempotent(canonical: Path -> Path) {
    forall p :: canonical(canonical(p)) == canonical(p)
  }

  /** The old path of a case shares its hash with no path of another case. */
  ghost predicate NoCollisions(cs: seq<MergeCase>) {
    forall c, d :: c in cs && d in cs && c != d ==>
      ProjectHash(c.oldPath) != ProjectHash(d.oldPath) && ProjectHash(c.oldPath) != ProjectHash(d.newPath)
  }

  /** Cases that start on one board end on one, and a case that starts where another ends stays there. */
  ghost predicate BoardsAgree(cs: seq<MergeCase>) {
    forall c, d :: c in cs && d in cs ==>
      && (ProjectIdForPath(c.oldPath) == ProjectIdForPath(d.oldPath) ==> ProjectIdForPath(c.newPath) == ProjectIdForPath(d.newPath))
      && (ProjectIdForPath(c.newPath) == ProjectIdForPath(d.oldPath) ==> ProjectIdForPath(d.newPath) == ProjectIdForPath(d.oldPath))
  }

  /** No case starts where another ends, and each starts somewhere else. */
  ghost predicate Unchained(cs: seq<MergeCase>) {
    forall c, d :: c in cs && d in cs ==> c.oldPath != d.newPath && (c.oldPath == d.oldPath ==> c == d)
  }

  lemma CasesAreUnchained(cs: seq<MergeCase>, t: Tables, canonical: Path -> Path)
    requires AreTheCases(cs, t, canonical) && Idempotent(canonical)
    ensures Unchained(cs)
  {
  }

  /** No row is lost: the same topics and tasks are there, whatever the cases. */
  lemma {:induction false} RowsAreKept(t: Tables, cs: seq<MergeCase>)
    ensures AfterCases(t, cs).topics.Keys == t.topics.Keys && AfterCases(t, cs).tasks.Keys == t.tasks.Keys
  {
    if cs != [] {
      RowsAreKept(t, cs[..|cs| - 1]);
    }
  }

  lemma {:induction false} TopicLands(t: Tables, cs: seq<MergeCase>, topic: int)
    requires topic in t.topics && Unchained(cs)
    ensures topic in AfterCases(t, cs).topics
    ensures forall c :: c in cs && t.topics[topic] == Some(c.oldPath) ==> AfterCases(t, cs).topics[topic] == Some(c.newPath)
    ensures (forall c :: c in cs ==> t.topics[topic] != Some(c.oldPath)) ==> AfterCases(t, cs).topics[topic] == t.topics[topic]
  {
    if cs != [] {
      var init, last := cs[..|cs| - 1], cs[|cs| - 1];
      assert last in cs && forall c :: c in cs <==> c in init || c == last;
      TopicLands(t, init, topic);
    }
  }

  /** Where the cases take a task of a board, one after the other. */
  function Followed(board: ProjectId, cs: seq<MergeCase>): ProjectId {
    if cs == [] then board
    else
      var there, last := Followed(board, cs[..|cs| - 1]), cs[|cs| - 1];
      if there == ProjectIdForPath(last.oldPath) then ProjectIdForPath(last.newPath) else there
  }

  lemma {:induction false} TasksFollow(t: Tables, cs: seq<MergeCase>, task: int)
    requires task in t.tasks
    ensures task in AfterCases(t, cs).tasks && AfterCases(t, cs).tasks[task] == Followed(t.tasks[task], cs)
  {
    if cs != [] {
      TasksFollow(t, cs[..|cs| - 1], task);
    }
  }

  lemma {:induction false} StaysWhereItIs(board: ProjectId, cs: seq<MergeCase>)
    requires forall c :: c in cs && ProjectIdForPath(c.oldPath) == board ==> ProjectIdForPath(c.newPath) == board
    ensures Followed(board, cs) == board
  {
    if cs != [] {
      assert cs[|cs| - 1] in cs && forall c :: c in cs[..|cs| - 1] ==> c in cs;
      StaysWhereItIs(board, cs[..|cs| - 1]);
    }
  }

  /** Where boards agree, a task is at the end of its own cases as soon as one of them came. */
  lemma {:induction false} FollowedToTheEnd(cs: seq<MergeCase>, all: seq<MergeCase>, c: MergeCase)
    requires BoardsAgree(all) && c in all && forall d :: d in cs ==> d in all
    ensures Followed(ProjectIdForPath(c.oldPath), cs) ==
            if exists d :: d in cs && ProjectIdForPath(d.oldPath) == ProjectIdForPath(c.oldPath)
            then ProjectIdForPath(c.newPath) else ProjectIdForPath(c.oldPath)
  {
    if cs != [] {
      var init, last := cs[..|cs| - 1], cs[|cs| - 1];
      assert last in cs && forall d :: d in cs <==> d in init || d == last;
      FollowedToTheEnd(init, all, c);
    }
  }

  /** Every task of a merged board is on the board of its real path after the cases. */
  ghost predicate TasksArrive(cs: seq<MergeCase>, other: seq<MergeCase>) {
    forall c :: c in cs ==> Followed(ProjectIdForPath(c.oldPath), other) == ProjectIdForPath(c.newPath)
  }

  /** Whatever order the cases come in, every task arrives: exactly when the boards agree. */
  lemma TasksArriveExactlyWhenBoardsAgree(cs: seq<MergeCase>)
    ensures (forall other :: Reorders(other, cs) ==> TasksArrive(cs, other)) <==> BoardsAgree(cs)
  {
    if BoardsAgree(cs) {
      forall other | Reorders(other, cs) ensures TasksArrive(cs, other) {
        SameCases(cs, other);
        forall c | c in cs ensures Followed(ProjectIdForPath(c.oldPath), other) == ProjectIdForPath(c.newPath) {
          FollowedToTheEnd(other, cs, c);
        }
      }
    }
    if forall other :: Reorders(other, cs) ==> TasksArrive(cs, other) {
      assert Reorders(cs, cs) && TasksArrive(cs, cs);
      forall c, d | c in cs && d in cs && ProjectIdForPath(c.newPath) == ProjectIdForPath(d.oldPath)
        ensures ProjectIdForPath(d.newPath) == ProjectIdForPath(d.oldPath)
      {
        var init := WithoutOne(cs, d);
        assert TasksArrive(cs, init + [d]);
        assert (init + [d])[..|init|] == init;
      }
    }
  }

  lemma WithoutOne(cs: seq<MergeCase>, d: MergeCase) returns (rest: seq<MergeCase>)
    requires d in cs
    ensures Reorders(rest + [d], cs)
  {
    var i :| 0 <= i < |cs| && cs[i] == d;
    rest := cs[..i] + cs[i + 1..];
    assert cs == cs[..i] + [d] + cs[i + 1..];
  }

  /** A task of no merged board stays where it is; one of a merged board is on the real path's, where boards agree. */
  lemma TaskLands(t: Tables, cs: seq<MergeCase>, task: int)
    requires task in t.tasks
    ensures task in AfterCases(t, cs).tasks
    ensures (forall c :: c in cs ==> t.tasks[task] != ProjectIdForPath(c.oldPath)) ==> AfterCases(t, cs).tasks[task] == t.tasks[task]
    ensures BoardsAgree(cs) ==>
              forall c :: c in cs && t.tasks[task] == ProjectIdForPath(c.oldPath) ==> AfterCases(t, cs).tasks[task] == ProjectIdForPath(c.newPath)
  {
    TasksFollow(t, cs, task);
    if forall c :: c in cs ==> t.tasks[task] != ProjectIdForPath(c.oldPath) {
      StaysWhereItIs(t.tasks[task], cs);
    }
    if BoardsAgree(cs) {
      forall c | c in cs && t.tasks[task] == ProjectIdForPath(c.oldPath)
        ensures AfterCases(t, cs).tasks[task] == ProjectIdForPath(c.newPath)
      {
        FollowedToTheEnd(cs, cs, c);
      }
    }
  }

  /** Where a topic ends: on the real path of what it was bound to, if it was bound. */
  function Landed(bound: Option<Path>, canonical: Path -> Path): Option<Path> {
    if bound.Some? && bound.value != "" then Some(canonical(bound.value)) else bound
  }

  /**
   * Every topic ends on the real path of what it was bound to, whatever hashes
   * collide; and every task of a merged board ends on the board of the real path where
   * the boards agree, which is exactly when it does so in whatever order the cases
   * come (`TasksArriveExactlyWhenBoardsAgree`).
   */
  lemma EveryRowLandsOnItsCanonicalIdentity(t: Tables, cs: seq<MergeCase>, canonical: Path -> Path)
    requires AreTheCases(cs, t, canonical) && Idempotent(canonical)
    ensures forall topic :: topic in t.topics ==>
              topic in AfterCases(t, cs).topics && AfterCases(t, cs).topics[topic] == Landed(t.topics[topic], canonical)
    ensures BoardsAgree(cs) ==>
              forall task, p :: task in t.tasks && p in SavedPaths(t) && t.tasks[task] == ProjectIdForPath(p) && canonical(p) != p ==>
                task in AfterCases(t, cs).tasks && AfterCases(t, cs).tasks[task] == ProjectIdForPath(canonical(p))
  {
    CasesAreUnchained(cs, t, canonical);
    forall topic | topic in t.topics
      ensures topic in AfterCases(t, cs).topics && AfterCases(t, cs).topics[topic] == Landed(t.topics[topic], canonical)
    {
      TopicLands(t, cs, topic);
      if t.topics[topic].Some? && t.topics[topic].value != "" {
        var p := t.topics[topic].value;
        assert p in SavedPaths(t);
        if canonical(p) != p {
          assert MergeCase(p, canonical(p)) in cs;
        }
      }
    }
    if BoardsAgree(cs) {
      forall task, p | task in t.tasks && p in SavedPaths(t) && t.tasks[task] == ProjectIdForPath(p) && canonical(p) != p
        ensures task in AfterCases(t, cs).tasks && AfterCases(t, cs).tasks[task] == ProjectIdForPath(canonical(p))
      {
        TaskLands(t, cs, task);
        assert MergeCase(p, canonical(p)) in cs;
      }
    }
  }

  lemma SavedPathsBecomeCanonical(t: Tables, cs: seq<MergeCase>, canonical: Path -> Path, p: Path)
    requires AreTheCases(cs, t, canonical) && Idempotent(canonical) && p in SavedPaths(AfterCases(t, cs))
    ensures canonical(p) == p
  {
    var after := AfterCases(t, cs);
    var topic :| topic in after.topics && after.topics[topic] == Some(p);
    RowsAreKept(t, cs);
    CasesAreUnchained(cs, t, canonical);
    TopicLands(t, cs, topic);
    if c :| c in cs && t.topics[topic] == Some(c.oldPath) {
      assert p == canonical(c.oldPath);
    } else {
      assert p in SavedPaths(t);
      assert canonical(p) != p ==> MergeCase(p, canonical(p)) in cs;
    }
  }

  /** A second run finds nothing to do. */
  lemma ASecondRunFindsNoCases(t: Tables, cs: seq<MergeCase>, again: seq<MergeCase>, canonical: Path -> Path)
    requires AreTheCases(cs, t, canonical) && Idempotent(canonical)
    requires AreTheCases(again, AfterCases(t, cs), canonical)
    ensures again == []
  {
    if again != [] {
      assert again[0] in again;
      SavedPathsBecomeCanonical(t, cs, canonical, again[0].oldPath);
    }
  }

  // ----- the UI rows ---------------------------------------------------------------------------

  function Lookup(ui: map<UiKey, string>, key: UiKey): Option<string> {
    if key in ui then Some(ui[key]) else None
  }

  predicate IsOldKey(cs: seq<MergeCase>, key: UiKey) {
    key.ProjectKey? && exists c :: c in cs && key.hash == ProjectHash(c.oldPath)
  }

  /** The row that the first case with one brings to a new key. */
  function FirstBrought(ui: map<UiKey, string>, cs: seq<MergeCase>, key: UiKey): Option<string> {
    if cs == [] then None
    else
      var last := cs[|cs| - 1];
      var earlier := FirstBrought(ui, cs[..|cs| - 1], key);
      if earlier.Some? then earlier
      else if key.ProjectKey? && key.hash == ProjectHash(last.newPath) then Lookup(ui, KeyOf(key.prefix, last.oldPath))
      else None
  }

  function Settled(ui: map<UiKey, string>, cs: seq<MergeCase>, key: UiKey): Option<string> {
    if IsOldKey(cs, key) then None
    else if key in ui then Some(ui[key])
    else FirstBrought(ui, cs, key)
  }

  lemma AfterMoving(ui: map<UiKey, string>, oldKey: UiKey, newKey: UiKey, key: UiKey)
    ensures Lookup(MoveKey(ui, oldKey, newKey), key) ==
            if key == oldKey then None
            else if key == newKey && newKey !in ui then Lookup(ui, oldKey)
            else Lookup(ui, key)
  {
  }

  lemma AfterMovingBoth(ui: map<UiKey, string>, c: MergeCase, key: UiKey)
    ensures Lookup(MoveKeys(ui, c), key) ==
            if key.Plain? then Lookup(ui, key)
            else if key.hash == ProjectHash(c.oldPath) then None
            else if key.hash == ProjectHash(c.newPath) && key !in ui then Lookup(ui, KeyOf(key.prefix, c.oldPath))
            else Lookup(ui, key)
  {
    var once := MoveKey(ui, KeyOf(Panes, c.oldPath), KeyOf(Panes, c.newPath));
    AfterMoving(ui, KeyOf(Panes, c.oldPath), KeyOf(Panes, c.newPath), key);
    AfterMoving(ui, KeyOf(Panes, c.oldPath), KeyOf(Panes, c.newPath), KeyOf(Layout, c.oldPath));
    AfterMoving(once, KeyOf(Layout, c.oldPath), KeyOf(Layout, c.newPath), key);
    if key.ProjectKey? {
      assert key == ProjectKey(key.prefix, key.hash);
      assert key.prefix == Panes || key.prefix == Layout;
      assert key in once <==> Lookup(once, key).Some?;
      assert key in ui <==> Lookup(ui, key).Some?;
    }
  }

  lemma {:induction false} NothingIsBroughtToAnOldKey(ui: map<UiKey, string>, cs: seq<MergeCase>, key: UiKey)
    requires forall c :: c in cs ==> key.ProjectKey? ==> key.hash != ProjectHash(c.newPath)
    ensures FirstBrought(ui, cs, key) == None
  {
    if cs != [] {
      assert cs[|cs| - 1] in cs && forall c :: c in cs[..|cs| - 1] ==> c in cs;
      NothingIsBroughtToAnOldKey(ui, cs[..|cs| - 1], key);
    }
  }

  ghost predicate Distinct(cs: seq<MergeCase>) {
    forall i, j :: 0 <= i < j < |cs| ==> cs[i] != cs[j]
  }

  lemma OneMoreSettles(ui: map<UiKey, string>, init: seq<MergeCase>, last: MergeCase, before: map<UiKey, string>, key: UiKey)
    requires NoCollisions(init + [last]) && last !in init
    requires Lookup(before, key) == Settled(ui, init, key)
    requires key.ProjectKey? ==> Lookup(before, KeyOf(key.prefix, last.oldPath)) == Settled(ui, init, KeyOf(key.prefix, last.oldPath))
    ensures Lookup(MoveKeys(before, last), key) == Settled(ui, init + [last], key)
  {
    var cs := init + [last];
    assert cs[..|cs| - 1] == init;
    assert last in cs && forall c :: c in cs <==> c in init || c == last;
    AfterMovingBoth(before, last, key);
    if key.ProjectKey? {
      var from := KeyOf(key.prefix, last.oldPath);
      NothingIsBroughtToAnOldKey(ui, init, from);
      assert !IsOldKey(init, from);
      assert IsOldKey(cs, key) <==> IsOldKey(init, key) || key.hash == ProjectHash(last.oldPath);
      assert key in before <==> Lookup(before, key).Some?;
    }
  }

  /**
   * What becomes of every UI row: no old key survives, a key that already had a row
   * keeps it, a key without one gets the row of the first case that has one, and all
   * the others stay as they were.
   */
  lemma {:induction false} EveryUiRowSettles(t: Tables, cs: seq<MergeCase>, key: UiKey)
    requires NoCollisions(cs) && Distinct(cs)
    ensures Lookup(AfterCases(t, cs).ui, key) == Settled(t.ui, cs, key)
  {
    if cs != [] {
      var init, last := cs[..|cs| - 1], cs[|cs| - 1];
      assert cs == init + [last];
      EveryUiRowSettles(t, init, key);
      if key.ProjectKey? {
        EveryUiRowSettles(t, init, KeyOf(key.prefix, last.oldPath));
      }
      OneMoreSettles(t.ui, init, last, AfterCases(t, init).ui, key);
    }
  }

  // ----- with collisions -------------------------------------------------------------------------

  /** The keys whose rows can end under `key`, the first that has one winning: decided by the cases alone. */
  function Sources(cs: seq<MergeCase>, key: UiKey): seq<UiKey> {
    if cs == [] then [key]
    else
      var init, last := cs[..|cs| - 1], cs[|cs| - 1];
      if key.Plain? then [key]
      else if key.hash == ProjectHash(last.oldPath) then []
      else if key.hash == ProjectHash(last.newPath) then Sources(init, key) + Sources(init, KeyOf(key.prefix, last.oldPath))
      else Sources(init, key)
  }

  function FirstRow(ui: map<UiKey, string>, keys: seq<UiKey>): Option<string> {
    if keys == [] then None else if keys[0] in ui then Some(ui[keys[0]]) else FirstRow(ui, keys[1..])
  }

  lemma {:induction false} FirstRowOfTwo(ui: map<UiKey, string>, a: seq<UiKey>, b: seq<UiKey>)
    ensures FirstRow(ui, a + b) == if FirstRow(ui, a).Some? then FirstRow(ui, a) else FirstRow(ui, b)
  {
    if a == [] {
      assert a + b == b;
    } else {
      assert (a + b)[1..] == a[1..] + b;
      FirstRowOfTwo(ui, a[1..], b);
    }
  }

  /** Whatever hashes collide, what is under a key afterwards is the first row among its sources. */
  lemma {:induction false} EveryUiRowHasASource(t: Tables, cs: seq<MergeCase>, key: UiKey)
    ensures Lookup(AfterCases(t, cs).ui, key) == FirstRow(t.ui, Sources(cs, key))
  {
    if cs != [] {
      var init, last := cs[..|cs| - 1], cs[|cs| - 1];
      EveryUiRowHasASource(t, init, key);
      AfterMovingBoth(AfterCases(t, init).ui, last, key);
      if key.ProjectKey? {
        var from := KeyOf(key.prefix, last.oldPath);
        EveryUiRowHasASource(t, init, from);
        FirstRowOfTwo(t.ui, Sources(init, key), Sources(init, from));
      }
    }
  }

  /** And no row is ever copied: two keys have no source in common. */
  lemma {:induction false} SourcesAreNotShared(cs: seq<MergeCase>, a: UiKey, b: UiKey)
    requires a != b
    ensures forall key :: key in Sources(cs, a) ==> key !in Sources(cs, b)
  {
    SourcesOf(cs, a);
    SourcesOf(cs, b);
    if cs != [] && a.ProjectKey? && b.ProjectKey? && a.prefix == b.prefix {
      var init, from := cs[..|cs| - 1], KeyOf(a.prefix, cs[|cs| - 1].oldPath);
      SourcesAreNotShared(init, a, b);
      if a != from {
        SourcesAreNotShared(init, a, from);
      }
      if b != from {
        SourcesAreNotShared(init, b, from);
      }
    }
  }

  lemma {:induction false} SourcesOf(cs: seq<MergeCase>, key: UiKey)
    ensures key.Plain? ==> Sources(cs, key) == [key]
    ensures key.ProjectKey? ==> forall from :: from in Sources(cs, key) ==> from.ProjectKey? && from.prefix == key.prefix
  {
    if cs != [] && key.ProjectKey? {
      SourcesOf(cs[..|cs| - 1], key);
      SourcesOf(cs[..|cs| - 1], KeyOf(key.prefix, cs[|cs| - 1].oldPath));
    }
  }

  // ----- when the order of the cases matters -----------------------------------------------------

  /** The case has a row for the new key. */
  predicate Brings(ui: map<UiKey, string>, c: MergeCase, key: UiKey) {
    key.ProjectKey? && key.hash == ProjectHash(c.newPath) && KeyOf(key.prefix, c.oldPath) in ui
  }

  function Brought(ui: map<UiKey, string>, c: MergeCase, key: UiKey): string
    requires Brings(ui, c, key)
  {
    ui[KeyOf(key.prefix, c.oldPath)]
  }

  lemma {:induction false} BroughtBySomeone(ui: map<UiKey, string>, cs: seq<MergeCase>, key: UiKey)
    ensures FirstBrought(ui, cs, key).Some? <==> exists c :: c in cs && Brings(ui, c, key)
    ensures FirstBrought(ui, cs, key).Some? ==>
              exists c :: c in cs && Brings(ui, c, key) && FirstBrought(ui, cs, key) == Some(Brought(ui, c, key))
  {
    if cs != [] {
      var init, last := cs[..|cs| - 1], cs[|cs| - 1];
      assert last in cs && forall c :: c in cs <==> c in init || c == last;
      BroughtBySomeone(ui, init, key);
    }
  }

  lemma {:induction false} FrontWins(ui: map<UiKey, string>, c: MergeCase, rest: seq<MergeCase>, key: UiKey)
    requires Brings(ui, c, key)
    ensures FirstBrought(ui, [c] + rest, key) == Some(Brought(ui, c, key))
  {
    var cs := [c] + rest;
    if rest == [] {
      assert cs[..0] == [];
    } else {
      FrontWins(ui, c, rest[..|rest| - 1], key);
      assert cs[..|cs| - 1] == [c] + rest[..|rest| - 1];
    }
  }

  /** No two cases bring different rows to the key. */
  predicate NoRivals(ui: map<UiKey, string>, cs: seq<MergeCase>, key: UiKey) {
    forall c, d :: c in cs && d in cs && Brings(ui, c, key) && Brings(ui, d, key) ==> Brought(ui, c, key) == Brought(ui, d, key)
  }

  /** The same cases, in whatever order. */
  predicate Reorders(other: seq<MergeCase>, cs: seq<MergeCase>) {
    multiset(other) == multiset(cs)
  }

  lemma SameCases(cs: seq<MergeCase>, other: seq<MergeCase>)
    requires Reorders(other, cs)
    ensures forall c :: c in other <==> c in cs
    ensures NoCollisions(cs) ==> NoCollisions(other)
    ensures Distinct(cs) ==> Distinct(other)
  {
    forall c ensures c in other <==> c in cs {
      assert c in other <==> c in multiset(other);
      assert c in cs <==> c in multiset(cs);
    }
    if Distinct(cs) {
      forall i, j | 0 <= i < j < |other| ensures other[i] != other[j] {
        if other[i] == other[j] {
          Twice(other, i, j);
          Once(cs, other[i]);
        }
      }
    }
  }

  lemma Twice(cs: seq<MergeCase>, i: nat, j: nat)
    requires i < j < |cs| && cs[i] == cs[j]
    ensures multiset(cs)[cs[i]] >= 2
  {
    assert cs == cs[..j] + [cs[j]] + cs[j + 1..];
    assert cs[..j][i] == cs[i];
    assert cs[i] in multiset(cs[..j]);
  }

  lemma {:induction false} Once(cs: seq<MergeCase>, c: MergeCase)
    requires Distinct(cs)
    ensures multiset(cs)[c] <= 1
  {
    if cs != [] {
      var init, last := cs[..|cs| - 1], cs[|cs| - 1];
      assert cs == init + [last];
      Once(init, c);
      assert last !in init;
    }
  }

  /**
   * The order of the cases decides what the migration leaves under a key exactly when
   * the key had no row, is no old key, and two links to one project bring it different
   * rows.
   */
  lemma OrderMattersExactlyForRivals(t: Tables, cs: seq<MergeCase>, key: UiKey)
    requires NoCollisions(cs) && Distinct(cs)
    ensures (forall other :: Reorders(other, cs) ==> Lookup(AfterCases(t, other).ui, key) == Lookup(AfterCases(t, cs).ui, key))
            <==> key in t.ui || IsOldKey(cs, key) || NoRivals(t.ui, cs, key)
  {
    EveryUiRowSettles(t, cs, key);
    if key in t.ui || IsOldKey(cs, key) || NoRivals(t.ui, cs, key) {
      forall other | Reorders(other, cs)
        ensures Lookup(AfterCases(t, other).ui, key) == Lookup(AfterCases(t, cs).ui, key)
      {
        SettledInAnyOrder(t, cs, other, key);
        NothingDependsOnTheOrder(t.ui, cs, other, key);
      }
    } else {
      var other := RivalsFirst(t.ui, cs, key);
      SettledInAnyOrder(t, cs, other, key);
      SameCases(cs, other);
      assert Lookup(AfterCases(t, other).ui, key) != Lookup(AfterCases(t, cs).ui, key);
    }
  }

  lemma SettledInAnyOrder(t: Tables, cs: seq<MergeCase>, other: seq<MergeCase>, key: UiKey)
    requires NoCollisions(cs) && Distinct(cs) && Reorders(other, cs)
    ensures Lookup(AfterCases(t, other).ui, key) == Settled(t.ui, other, key)
  {
    SameCases(cs, other);
    EveryUiRowSettles(t, other, key);
  }

  lemma NothingDependsOnTheOrder(ui: map<UiKey, string>, cs: seq<MergeCase>, other: seq<MergeCase>, key: UiKey)
    requires Reorders(other, cs) && (key in ui || IsOldKey(cs, key) || NoRivals(ui, cs, key))
    ensures Settled(ui, other, key) == Settled(ui, cs, key)
  {
    SameCases(cs, other);
    BroughtBySomeone(ui, cs, key);
    BroughtBySomeone(ui, other, key);
  }

  /** With rivals some order brings another row than this one does. */
  lemma RivalsFirst(ui: map<UiKey, string>, cs: seq<MergeCase>, key: UiKey) returns (other: seq<MergeCase>)
    requires !NoRivals(ui, cs, key)
    ensures Reorders(other, cs) && FirstBrought(ui, other, key) != FirstBrought(ui, cs, key)
  {
    var c, d :| c in cs && d in cs && Brings(ui, c, key) && Brings(ui, d, key) && Brought(ui, c, key) != Brought(ui, d, key);
    other := PutFirst(ui, cs, c, key);
    if FirstBrought(ui, cs, key) == Some(Brought(ui, c, key)) {
      other := PutFirst(ui, cs, d, key);
    }
  }

  lemma PutFirst(ui: map<UiKey, string>, cs: seq<MergeCase>, c: MergeCase, key: UiKey) returns (other: seq<MergeCase>)
    requires c in cs && Brings(ui, c, key)
    ensures Reorders(other, cs) && FirstBrought(ui, other, key) == Some(Brought(ui, c, key))
  {
    var i :| 0 <= i < |cs| && cs[i] == c;
    other := [c] + (cs[..i] + cs[i + 1..]);
    assert cs == cs[..i] + [c] + cs[i + 1..];
    FrontWins(ui, c, cs[..i] + cs[i + 1..], key);
  }

  // ----- colliding hashes -------------------------------------------------------------------------

  /**
   * A merge keeps a project's row exactly when there was one under either key and the
   * two paths do not share a hash: with a shared hash the "old" row is the only one,
   * and it is deleted.
   */
  lemma TheRowSurvivesExactlyWithoutACollision(ui: map<UiKey, string>, c: MergeCase, prefix: Prefix)
    ensures KeyOf(prefix, c.newPath) in MoveKeys(ui, c) <==>
              && ProjectHash(c.oldPath) != ProjectHash(c.newPath)
              && (KeyOf(prefix, c.oldPath) in ui || KeyOf(prefix, c.newPath) in ui)
  {
    AfterMovingBoth(ui, c, KeyOf(prefix, c.newPath));
    assert forall key :: key in MoveKeys(ui, c) <==> Lookup(MoveKeys(ui, c), key).Some?;
  }

  lemma OneMoreCharacter(path: Path, c: char)
    ensures Djb2(path + [c]) == NextHash(Djb2(path), c)
  {
    assert (path + [c])[..|path|] == path;
  }

  /** While nothing wraps, one more character is times 31 plus its code. */
  lemma SmallHash(path: Path, c: char, hash: nat)
    requires Djb2(path) == hash < 60_000_000
    ensures Djb2(path + [c]) == 31 * hash + c as int
  {
    OneMoreCharacter(path, c);
    assert c as int < 0x11_0000;
    NothingWraps(hash * 32);
    NothingWraps(31 * hash + c as int);
  }

  lemma NothingWraps(x: nat)
    requires x < TWO_31
    ensures ToInt32(x) == x
  {
  }

  lemma FolderHash(a: char, b: char)
    ensures Djb2(['/', a, b]) == 45167 + 31 * a as int + b as int
  {
    SmallHash("", '/', 0);
    assert "" + ['/'] == ['/'];
    SmallHash(['/'], a, 47);
    assert ['/'] + [a] == ['/', a];
    SmallHash(['/', a], b, 1457 + a as int);
    assert ['/', a] + [b] == ['/', a, b];
  }

  /** Two such paths: the link `/Aa/p` to `/BB/p` has one id and one key with its target, and merging deletes the only row. */
  lemma ALinkThatLosesItsLayout(layout: string)
    ensures ProjectIdForPath("/Aa/p") == ProjectIdForPath("/BB/p")
    ensures KeyOf(Layout, "/Aa/p") == KeyOf(Layout, "/BB/p")
    ensures MoveKeys(map[KeyOf(Layout, "/Aa/p") := layout], MergeCase("/Aa/p", "/BB/p")) == map[]
  {
    FolderHash('A', 'a');
    FolderHash('B', 'B');
    SameSuffix("/Aa", "/BB", '/');
    assert "/Aa" + ['/'] == "/Aa/" && "/BB" + ['/'] == "/BB/";
    SameSuffix("/Aa/", "/BB/", 'p');
    SameName("/Aa/", "/BB/", 'p');
    assert "/Aa/" + ['p'] == "/Aa/p" && "/BB/" + ['p'] == "/BB/p";
    ADeletedRow(layout, "/Aa/p", "/BB/p");
  }

  lemma ADeletedRow(layout: string, p: Path, q: Path)
    requires ProjectHash(p) == ProjectHash(q)
    ensures MoveKeys(map[KeyOf(Layout, p) := layout], MergeCase(p, q)) == map[]
  {
  }

  lemma SameName(a: Path, b: Path, c: char)
    requires a != "" && IsSeparator(a[|a| - 1]) && b != "" && IsSeparator(b[|b| - 1]) && !IsSeparator(c)
    requires Djb2(a + [c]) == Djb2(b + [c])
    ensures ProjectIdForPath(a + [c]) == ProjectIdForPath(b + [c])
  {
    LastPartIs(a, c);
    LastPartIs(b, c);
  }

  lemma SameSuffix(a: Path, b: Path, c: char)
    requires Djb2(a) == Djb2(b)
    ensures Djb2(a + [c]) == Djb2(b + [c])
  {
    OneMoreCharacter(a, c);
    OneMoreCharacter(b, c);
  }

  lemma LastPartIs(folder: Path, c: char)
    requires folder != "" && IsSeparator(folder[|folder| - 1]) && !IsSeparator(c)
    ensures LastPart(WithoutTrailingSeparators(folder + [c])) == [c]
  {
    var path := folder + [c];
    assert WithoutTrailingSeparators(path) == path;
    assert path[..|path| - 1] == folder;
    assert LastPart(folder) == "";
  }
}
