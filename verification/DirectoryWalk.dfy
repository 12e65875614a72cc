/** The find command of the file system shell: a recursive walk that keeps one file descriptor open
    for each level it is down, out of a fixed table. */
module DirectoryWalk {
  const TFS_OPEN_MAX := 16

  /** What a path names. statable and readable say whether tfs_stat and tfs_open work on it;
      entries are the records tfs_read delivers before it first falls short. */
  datatype Node =
    | Regular(statable: bool)
    | Directory(statable: bool, readable: bool, entries: seq<Entry>)

  datatype Entry = Entry(inodeNo: nat, name: string, node: Node)

  /** Which types of file -type selects. */
  datatype TypeMask = TypeMask(regular: bool, directory: bool)

  datatype Message = Printed(path: string) | StatFailed(path: string) | OpenFailed(path: string)

  /** The entries the walk goes into: in use, and neither the directory itself nor its parent. */
  predicate IsChild(e: Entry) {
    e.inodeNo != 0 && e.name != "." && e.name != ".."
  }

  predicate Selects(mask: TypeMask, node: Node) {
    if node.Directory? then mask.directory else mask.regular
  }

  /** -type f, -type d, and no -type. */
  lemma SelectsByType(node: Node)
    ensures Selects(TypeMask(true, false), node) <==> node.Regular?
    ensures Selects(TypeMask(false, true), node) <==> node.Directory?
    ensures Selects(TypeMask(true, true), node)
    ensures !Selects(TypeMask(false, false), node)
  {
  }

  // ---------------------------------------------------------------- the walk

  /** The messages of a walk from path with a number of descriptors free. */
  function Walk(path: string, node: Node, free: nat, mask: TypeMask, printing: bool): seq<Message>
    decreases node, 1
  {
    if !node.statable then [StatFailed(path)]
    else
      (if Selects(mask, node) && printing then [Printed(path)] else [])
      + (if node.Directory? then WalkDirectory(path, node, free, mask, printing) else [])
  }

  function WalkDirectory(path: string, node: Node, free: nat, mask: TypeMask, printing: bool): seq<Message>
    requires node.Directory?
    decreases node, 0
  {
    if free == 0 || !node.readable then [OpenFailed(path)]
    else WalkEntries(path, node.entries, free - 1, mask, printing)
  }

  function WalkEntries(path: string, entries: seq<Entry>, free: nat, mask: TypeMask, printing: bool): seq<Message>
    decreases entries
  {
    if |entries| == 0 then []
    else
      (if IsChild(entries[0]) then Walk(path + "/" + entries[0].name, entries[0].node, free, mask, printing) else [])
      + WalkEntries(path, entries[1..], free, mask, printing)
  }

  lemma {:induction false} WalkEntriesAppend(path: string, entries: seq<Entry>, e: Entry, free: nat, mask: TypeMask,
                                             printing: bool)
    ensures WalkEntries(path, entries + [e], free, mask, printing) == WalkEntries(path, entries, free, mask, printing)
      + if IsChild(e) then Walk(path + "/" + e.name, e.node, free, mask, printing) else []
  {
    if |entries| == 0 {
      assert entries + [e] == [e];
    } else {
      assert (entries + [e])[1..] == entries[1..] + [e];
      WalkEntriesAppend(path, entries[1..], e, free, mask, printing);
    }
  }

  lemma WalkNoEntries(path: string, free: nat, mask: TypeMask, printing: bool)
    ensures WalkEntries(path, [], free, mask, printing) == []
  {
  }

  /** The number of unused descriptors in a table of used flags. */
  function FreeIn(used: seq<bool>): nat {
    if |used| == 0 then 0 else (if used[0] then 0 else 1) + FreeIn(used[1..])
  }

  lemma {:induction false} AllFree(n: nat)
    ensures FreeIn(seq(n, _ => false)) == n
  {
    if n > 0 {
      AllFree(n - 1);
      assert seq(n, _ => false)[1..] == seq(n - 1, _ => false);
    }
  }

  lemma {:induction false} FreeAfterUse(used: seq<bool>, fd: nat)
    requires fd < |used| && !used[fd]
    ensures FreeIn(used) == FreeIn(used[fd := true]) + 1
  {
    if fd > 0 {
      FreeAfterUse(used[1..], fd - 1);
      assert used[fd := true][1..] == used[1..][fd - 1 := true];
    }
  }

  lemma {:induction false} NoneFree(used: seq<bool>)
    ensures FreeIn(used) == 0 <==> forall fd :: 0 <= fd < |used| ==> used[fd]
  {
    if |used| > 0 {
      NoneFree(used[1..]);
      assert forall fd :: 1 <= fd < |used| ==> used[fd] == used[1..][fd - 1];
      assert forall fd :: 0 <= fd < |used| - 1 ==> used[1..][fd] == used[fd + 1];
    }
  }

  class Session {
    var used: seq<bool>
    var messages: seq<Message>
    var typeMask: TypeMask
    var printing: bool

    constructor (typeMask: TypeMask, printing: bool)
      ensures |used| == FreeIn(used) == 16 && messages == []
      ensures this.typeMask == typeMask && this.printing == printing
    {
      used := seq(TFS_OPEN_MAX, _ => false);
      messages := [];
      this.typeMask := typeMask;
      this.printing := printing;
      AllFree(TFS_OPEN_MAX);
    }

    /** tfs_open: some unused descriptor, or failure when the file cannot be read or none is unused. */
    method Open(node: Node) returns (fd: int)
      requires node.Directory?
      modifies this`used
      ensures fd == -1 <==> !node.readable || FreeIn(old(used)) == 0
      ensures if fd == -1 then used == old(used)
              else 0 <= fd < |old(used)| && !old(used)[fd] && used == old(used)[fd := true]
    {
      NoneFree(used);
      if !node.readable || forall d :: 0 <= d < |used| ==> used[d] {
        return -1;
      }
      fd :| 0 <= fd < |used| && !used[fd];
      used := used[fd := true];
    }

    method Close(fd: nat)
      requires fd < |used|
      modifies this`used
      ensures used == old(used)[fd := false]
    {
      used := used[fd := false];
    }

    /** Walk the entries of one directory while it is open. */
    method FindDir(path: string, node: Node)
      requires node.Directory?
      modifies this`used, this`messages
      ensures used == old(used)
      ensures messages == old(messages) + WalkDirectory(path, node, FreeIn(old(used)), typeMask, printing)
      decreases node, 0
    {
      var fd := Open(node);
      if fd == -1 {
        messages := messages + [OpenFailed(path)];
        return;
      }
      FreeAfterUse(old(used), fd);
      FindEntries(path, node.entries);
      Close(fd);
      assert used == old(used);
    }

    /** The read loop of a directory walk. */
    method FindEntries(path: string, entries: seq<Entry>)
      modifies this`used, this`messages
      ensures used == old(used)
      ensures messages == old(messages) + WalkEntries(path, entries, FreeIn(used), typeMask, printing)
      decreases entries, 2
    {
      hide Walk, WalkEntries, FreeIn;
      ghost var report := [];
      WalkNoEntries(path, FreeIn(used), typeMask, printing);
      var i := 0;
      while i < |entries|
        invariant 0 <= i <= |entries| && used == old(used)
        invariant messages == old(messages) + report
        invariant report == WalkEntries(path, entries[..i], FreeIn(used), typeMask, printing)
      {
        var e := entries[i];
        WalkEntriesAppend(path, entries[..i], e, FreeIn(used), typeMask, printing);
        assert entries[..i] + [e] == entries[..i + 1];
        if e.inodeNo != 0 && e.name != "." && e.name != ".." {
          ghost var child := Walk(path + "/" + e.name, e.node, FreeIn(used), typeMask, printing);
          Find(path + "/" + e.name, e.node);
          assert (old(messages) + report) + child == old(messages) + (report + child);
          report := report + child;
        }
        i := i + 1;
      }
      assert entries[..i] == entries;
    }

    /** Report a file if it is of a selected type, and go down if it is a directory. Whatever fails
        beneath it, the same descriptors are in use afterwards. */
    method Find(path: string, node: Node)
      modifies this`used, this`messages
      ensures used == old(used)
      ensures messages == old(messages) + Walk(path, node, FreeIn(old(used)), typeMask, printing)
      decreases node, 1
    {
      if !node.statable {
        messages := messages + [StatFailed(path)];
        return;
      }
      if (typeMask.regular && node.Regular?) || (typeMask.directory && node.Directory?) {
        if printing {
          messages := messages + [Printed(path)];
        }
      }
      if node.Directory? {
        FindDir(path, node);
      }
    }
  }

  // ---------------------------------------------------------------- what the walk reports

  /** One file below the starting point: its depth, and whether everything above it can be read. */
  datatype Visit = Visit(path: string, node: Node, depth: nat, accessible: bool)

  /** Every file of the tree in pre-order, however deep. */
  function Preorder(path: string, node: Node, depth: nat, accessible: bool): seq<Visit>
    decreases node, 1
  {
    [Visit(path, node, depth, accessible)]
    + if node.Directory?
      then PreorderEntries(path, node.entries, depth + 1, accessible && node.statable && node.readable)
      else []
  }

  function PreorderEntries(path: string, entries: seq<Entry>, depth: nat, accessible: bool): seq<Visit>
    decreases entries
  {
    if |entries| == 0 then []
    else
      var e := entries[0];
      (if e.inodeNo == 0 || e.name in {".", ".."} then [] else Preorder(path + "/" + e.name, e.node, depth, accessible))
      + PreorderEntries(path, entries[1..], depth, accessible)
  }

  /** Whether a walk with so many free descriptors gets to a file: it holds one for each level above. */
  predicate Reached(v: Visit, free: nat) {
    v.accessible && v.depth <= free
  }

  /** What is reported of one file on its own. */
  function Report(v: Visit, free: nat, mask: TypeMask, printing: bool): seq<Message> {
    if !Reached(v, free) then []
    else if !v.node.statable then [StatFailed(v.path)]
    else
      (if Selects(mask, v.node) && printing then [Printed(v.path)] else [])
      + (if v.node.Directory? && (v.depth == free || !v.node.readable) then [OpenFailed(v.path)] else [])
  }

  function Reports(visits: seq<Visit>, free: nat, mask: TypeMask, printing: bool): seq<Message> {
    if |visits| == 0 then [] else Report(visits[0], free, mask, printing) + Reports(visits[1..], free, mask, printing)
  }

  lemma {:induction false} ReportsAppend(a: seq<Visit>, b: seq<Visit>, free: nat, mask: TypeMask, printing: bool)
    ensures Reports(a + b, free, mask, printing) == Reports(a, free, mask, printing) + Reports(b, free, mask, printing)
  {
    if |a| == 0 {
      assert a + b == b;
    } else {
      assert (a + b)[1..] == a[1..] + b;
      ReportsAppend(a[1..], b, free, mask, printing);
    }
  }

  /** Below a file that is not reached nothing is reported. */
  lemma {:induction false} NothingBelow(path: string, node: Node, depth: nat, accessible: bool, free: nat,
                                        mask: TypeMask, printing: bool)
    requires !accessible || depth > free
    ensures Reports(Preorder(path, node, depth, accessible), free, mask, printing) == []
    decreases node, 1
  {
    if node.Directory? {
      NothingBelowEntries(path, node.entries, depth + 1, accessible && node.statable && node.readable,
                          free, mask, printing);
    }
  }

  lemma {:induction false} NothingBelowEntries(path: string, entries: seq<Entry>, depth: nat, accessible: bool,
                                               free: nat, mask: TypeMask, printing: bool)
    requires !accessible || depth > free
    ensures Reports(PreorderEntries(path, entries, depth, accessible), free, mask, printing) == []
    decreases entries
  {
    if |entries| > 0 {
      var rest := PreorderEntries(path, entries[1..], depth, accessible);
      NothingBelowEntries(path, entries[1..], depth, accessible, free, mask, printing);
      if IsChild(entries[0]) {
        var child := path + "/" + entries[0].name;
        NothingBelow(child, entries[0].node, depth, accessible, free, mask, printing);
        ReportsAppend(Preorder(child, entries[0].node, depth, accessible), rest, free, mask, printing);
      } else {
        assert [] + rest == rest;
      }
    }
  }

  lemma ReportsCons(v: Visit, rest: seq<Visit>, free: nat, mask: TypeMask, printing: bool)
    ensures Reports([v] + rest, free, mask, printing)
         == Report(v, free, mask, printing) + Reports(rest, free, mask, printing)
  {
    assert ([v] + rest)[1..] == rest;
  }

  /** Main result: the walk, cut off where descriptors run out, reports of each file of the whole
      tree, in pre-order and once each, what its depth and the files above it allow. */
  lemma {:induction false} WalkIsPreorder(path: string, node: Node, depth: nat, free: nat, mask: TypeMask,
                                          printing: bool)
    requires depth <= free
    ensures Walk(path, node, free - depth, mask, printing)
         == Reports(Preorder(path, node, depth, true), free, mask, printing)
    decreases node, 1
  {
    var visit := Visit(path, node, depth, true);
    if node.Directory? {
      var accessible := node.statable && node.readable;
      var below := PreorderEntries(path, node.entries, depth + 1, accessible);
      ReportsCons(visit, below, free, mask, printing);
      if accessible && depth < free {
        WalkEntriesArePreorder(path, node.entries, depth + 1, free, mask, printing);
        assert WalkDirectory(path, node, free - depth, mask, printing) == Reports(below, free, mask, printing);
      } else {
        NothingBelowEntries(path, node.entries, depth + 1, accessible, free, mask, printing);
      }
    } else {
      ReportsCons(visit, [], free, mask, printing);
    }
  }

  lemma {:induction false} WalkEntriesArePreorder(path: string, entries: seq<Entry>, depth: nat, free: nat,
                                                  mask: TypeMask, printing: bool)
    requires depth <= free
    ensures WalkEntries(path, entries, free - depth, mask, printing)
         == Reports(PreorderEntries(path, entries, depth, true), free, mask, printing)
    decreases entries
  {
    if |entries| > 0 {
      var rest := PreorderEntries(path, entries[1..], depth, true);
      WalkEntriesArePreorder(path, entries[1..], depth, free, mask, printing);
      if IsChild(entries[0]) {
        var child := path + "/" + entries[0].name;
        WalkIsPreorder(child, entries[0].node, depth, free, mask, printing);
        ReportsAppend(Preorder(child, entries[0].node, depth, true), rest, free, mask, printing);
      } else {
        assert [] + rest == rest;
      }
    }
  }

  // ---------------------------------------------------------------- without errors

  /** Every stat and open beneath the node works, as far as the file system is concerned. */
  predicate Healthy(node: Node)
    decreases node, 1
  {
    node.statable && (node.Directory? ==> node.readable && HealthyEntries(node.entries))
  }

  predicate HealthyEntries(entries: seq<Entry>)
    decreases entries
  {
    |entries| == 0 || (Healthy(entries[0].node) && HealthyEntries(entries[1..]))
  }

  /** What goes to the standard output, without the error messages. */
  function Output(messages: seq<Message>): seq<string> {
    if |messages| == 0 then []
    else (if messages[0].Printed? then [messages[0].path] else []) + Output(messages[1..])
  }

  lemma {:induction false} OutputAppend(a: seq<Message>, b: seq<Message>)
    ensures Output(a + b) == Output(a) + Output(b)
  {
    if |a| == 0 {
      assert a + b == b;
    } else {
      var first := if a[0].Printed? then [a[0].path] else [];
      assert (a + b)[1..] == a[1..] + b;
      OutputAppend(a[1..], b);
      assert Output(a + b) == first + (Output(a[1..]) + Output(b));
    }
  }

  /** The paths of those files of a list that meet a condition, in the order of the list. */
  function PathsOf(visits: seq<Visit>, keeps: Visit -> bool): seq<string> {
    if |visits| == 0 then []
    else (if keeps(visits[0]) then [visits[0].path] else []) + PathsOf(visits[1..], keeps)
  }

  lemma {:induction false} SameCondition(visits: seq<Visit>, p: Visit -> bool, q: Visit -> bool)
    requires forall v :: v in visits ==> p(v) == q(v)
    ensures PathsOf(visits, p) == PathsOf(visits, q)
  {
    if |visits| > 0 {
      SameCondition(visits[1..], p, q);
    }
  }

  lemma {:induction false} NoneKept(visits: seq<Visit>, p: Visit -> bool)
    requires forall v :: v in visits ==> !p(v)
    ensures PathsOf(visits, p) == []
  {
    if |visits| > 0 {
      NoneKept(visits[1..], p);
    }
  }

  lemma {:induction false} AllOpen(path: string, node: Node, depth: nat)
    requires Healthy(node)
    ensures forall v :: v in Preorder(path, node, depth, true) ==> v.accessible && v.node.statable
    decreases node, 1
  {
    if node.Directory? {
      AllOpenEntries(path, node.entries, depth + 1);
    }
  }

  lemma {:induction false} AllOpenEntries(path: string, entries: seq<Entry>, depth: nat)
    requires HealthyEntries(entries)
    ensures forall v :: v in PreorderEntries(path, entries, depth, true) ==> v.accessible && v.node.statable
    decreases entries
  {
    if |entries| > 0 {
      AllOpenEntries(path, entries[1..], depth);
      if IsChild(entries[0]) {
        AllOpen(path + "/" + entries[0].name, entries[0].node, depth);
      }
    }
  }

  lemma OutputOfReport(v: Visit, free: nat, mask: TypeMask)
    requires v.accessible && v.node.statable
    ensures Output(Report(v, free, mask, true)) ==
      if v.depth <= free && Selects(mask, v.node) then [v.path] else []
  {
    var printed := if Selects(mask, v.node) then [Printed(v.path)] else [];
    var failed := if v.node.Directory? && (v.depth == free || !v.node.readable) then [OpenFailed(v.path)] else [];
    OutputAppend(printed, failed);
  }

  lemma {:induction false} OutputOfReports(visits: seq<Visit>, free: nat, mask: TypeMask)
    requires forall v :: v in visits ==> v.accessible && v.node.statable
    ensures Output(Reports(visits, free, mask, true))
         == PathsOf(visits, (v: Visit) => v.depth <= free && Selects(mask, v.node))
  {
    if |visits| > 0 {
      OutputAppend(Report(visits[0], free, mask, true), Reports(visits[1..], free, mask, true));
      OutputOfReports(visits[1..], free, mask);
      OutputOfReport(visits[0], free, mask);
    }
  }

  /** Main result: with every descriptor free and a healthy tree, find prints exactly the files of a
      selected type at most sixteen levels down, in pre-order, once each. */
  lemma FindPrintsSelected(path: string, node: Node, mask: TypeMask)
    requires Healthy(node)
    ensures Output(Walk(path, node, 16, mask, true))
         == PathsOf(Preorder(path, node, 0, true), (v: Visit) => v.depth <= 16 && Selects(mask, v.node))
  {
    WalkIsPreorder(path, node, 0, TFS_OPEN_MAX, mask, true);
    AllOpen(path, node, 0);
    OutputOfReports(Preorder(path, node, 0, true), TFS_OPEN_MAX, mask);
  }

  /** By type: -type f prints exactly the regular files, -type d exactly the directories, without -type
      all are printed, and nothing is if neither type is selected. */
  lemma FindPrintsByType(path: string, node: Node)
    requires Healthy(node)
    ensures var all := Preorder(path, node, 0, true);
      && Output(Walk(path, node, 16, TypeMask(true, false), true))
         == PathsOf(all, (v: Visit) => v.depth <= 16 && v.node.Regular?)
      && Output(Walk(path, node, 16, TypeMask(false, true), true))
         == PathsOf(all, (v: Visit) => v.depth <= 16 && v.node.Directory?)
      && Output(Walk(path, node, 16, TypeMask(true, true), true)) == PathsOf(all, (v: Visit) => v.depth <= 16)
      && Output(Walk(path, node, 16, TypeMask(false, false), true)) == []
  {
    var all := Preorder(path, node, 0, true);
    forall mask { FindPrintsSelected(path, node, mask); }
    forall v: Node { SelectsByType(v); }
    SameCondition(all, (v: Visit) => v.depth <= 16 && Selects(TypeMask(true, false), v.node),
                  (v: Visit) => v.depth <= 16 && v.node.Regular?);
    SameCondition(all, (v: Visit) => v.depth <= 16 && Selects(TypeMask(false, true), v.node),
                  (v: Visit) => v.depth <= 16 && v.node.Directory?);
    SameCondition(all, (v: Visit) => v.depth <= 16 && Selects(TypeMask(true, true), v.node),
                  (v: Visit) => v.depth <= 16);
    NoneKept(all, (v: Visit) => v.depth <= 16 && Selects(TypeMask(false, false), v.node));
  }

  /** Without -print nothing is printed, and errors are reported all the same. */
  lemma {:induction false} SilentReports(visits: seq<Visit>, free: nat, mask: TypeMask)
    ensures Output(Reports(visits, free, mask, false)) == []
  {
    if |visits| > 0 {
      OutputAppend(Report(visits[0], free, mask, false), Reports(visits[1..], free, mask, false));
      SilentReports(visits[1..], free, mask);
    }
  }

  /** What goes wrong is reported whatever is printed: a file that cannot be examined, a directory that
      cannot be read, and one for which no descriptor is left. */
  lemma ErrorsAreReported(path: string, node: Node, free: nat, mask: TypeMask, printing: bool)
    ensures !node.statable ==> Walk(path, node, free, mask, printing) == [StatFailed(path)]
    ensures node.statable && node.Directory? && (!node.readable || free == 0) ==>
      Walk(path, node, free, mask, printing)
      == (if mask.directory && printing then [Printed(path)] else []) + [OpenFailed(path)]
    ensures Output(Walk(path, node, free, mask, false)) == []
  {
    WalkIsPreorder(path, node, 0, free, mask, false);
    SilentReports(Preorder(path, node, 0, true), free, mask);
  }
}
