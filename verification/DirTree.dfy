/** The directory tree of i386/whitex/fs.h and i386/whitex/fssdd.h: a table of 128 nodes that name their
    parent by index, and a current directory. Names are read whole; the table keeps 31 characters. */
module DirTree {
  import opened Common

  const MAX_NODES := 128
  const NAME_LEN := 32

  datatype Node = Node(name: string, isDir: bool, parent: nat, used: bool)
  datatype Fs = Fs(nodes: seq<Node>, current: nat)

  /** `fs_strcpy`. */
  function Cut(name: string): (r: string)
    ensures r <= name && |r| <= NAME_LEN - 1 && (|name| < NAME_LEN ==> r == name)
  {
    if |name| < NAME_LEN then name else name[..NAME_LEN - 1]
  }

  datatype Op = InitFs | MakeDir(name: string) | Touch(name: string) | ChangeDir(name: string) | Remove(name: string)

  // ---------- the searches ----------

  /** The first unused slot from `i` on; the size of the table if there is none. */
  function FirstFree(nodes: seq<Node>, i: nat): (k: nat)
    requires i <= |nodes|
    ensures i <= k <= |nodes| && (k < |nodes| ==> !nodes[k].used)
    ensures forall j :: i <= j < k ==> nodes[j].used
    decreases |nodes| - i
  {
    if i == |nodes| || !nodes[i].used then i else FirstFree(nodes, i + 1)
  }

  predicate Child(n: Node, name: string, parent: nat) { n.used && n.name == name && n.parent == parent }

  /** The first node of that name in a directory, a directory itself where only those are wanted. */
  function FindChild(fs: Fs, name: string, dirsOnly: bool, i: nat): (k: nat)
    requires i <= |fs.nodes|
    ensures i <= k <= |fs.nodes|
    ensures k < |fs.nodes| ==> Child(fs.nodes[k], name, fs.current) && (dirsOnly ==> fs.nodes[k].isDir)
    ensures forall j :: i <= j < k ==> !(Child(fs.nodes[j], name, fs.current) && (dirsOnly ==> fs.nodes[j].isDir))
    decreases |fs.nodes| - i
  {
    if i == |fs.nodes| || (Child(fs.nodes[i], name, fs.current) && (dirsOnly ==> fs.nodes[i].isDir)) then i
    else FindChild(fs, name, dirsOnly, i + 1)
  }

  // ---------- the operations ----------

  function Create(fs: Fs, name: string, isDir: bool): Fs {
    var i := FirstFree(fs.nodes, 0);
    if i == |fs.nodes| then fs else fs.(nodes := fs.nodes[i := Node(Cut(name), isDir, fs.current, true)])
  }

  /** The slot `rm` frees; the size of the table if none. */
  function Victim(fs: Fs, name: string): (k: nat)
    ensures k <= |fs.nodes| && (k < |fs.nodes| ==> k != 0 && Child(fs.nodes[k], name, fs.current))
  {
    var i := FindChild(fs, name, false, 0);
    if i == 0 then |fs.nodes| else i
  }

  function Next(fs: Fs, op: Op): (r: Fs)
    requires |fs.nodes| == MAX_NODES && fs.current < MAX_NODES
    ensures |r.nodes| == MAX_NODES
  {
    match op
    case InitFs =>
      Fs(seq(MAX_NODES, i requires 0 <= i < MAX_NODES =>
        if i == 0 then Node("root", true, 0, true) else fs.nodes[i].(used := false)), 0)
    case MakeDir(name) => Create(fs, name, true)
    case Touch(name) => Create(fs, name, false)
    case ChangeDir(name) =>
      if name == ".." then fs.(current := fs.nodes[fs.current].parent)
      else
        var i := FindChild(fs, name, true, 0);
        if i == |fs.nodes| then fs else fs.(current := i)
    case Remove(name) =>
      var i := Victim(fs, name);
      if i == |fs.nodes| then fs else fs.(nodes := fs.nodes[i := fs.nodes[i].(used := false)])
  }

  // ---------- paths ----------

  /** A chain of parents through different used directories up to the root. */
  ghost predicate Path(nodes: seq<Node>, p: seq<nat>) {
    && |p| > 0 && p[|p| - 1] == 0
    && (forall k :: 0 <= k < |p| ==> p[k] < |nodes| && nodes[p[k]].used && nodes[p[k]].isDir)
    && (forall k :: 0 <= k < |p| - 1 ==> p[k + 1] == nodes[p[k]].parent)
    && (forall j, k :: 0 <= j < k < |p| ==> p[j] != p[k])
  }

  ghost predicate Reaches(nodes: seq<Node>, d: nat) { exists p :: Path(nodes, p) && p[0] == d }

  ghost predicate RootOk(nodes: seq<Node>) {
    |nodes| == MAX_NODES && nodes[0] == Node("root", true, 0, true)
  }

  ghost predicate Inv(fs: Fs) { RootOk(fs.nodes) && fs.current < MAX_NODES && Reaches(fs.nodes, fs.current) }

  /** The table at start-up, before `init_fs`. */
  function Boot(): Fs { Fs(seq(MAX_NODES, _ => Node("", true, 0, false)), 0) }

  /** A slot that is not on a path may change. */
  lemma PathKept(nodes: seq<Node>, p: seq<nat>, i: nat, n: Node)
    requires Path(nodes, p) && i < |nodes| && i !in p
    ensures Path(nodes[i := n], p)
  {
  }

  lemma Unused(nodes: seq<Node>, d: nat, i: nat, n: Node)
    requires Reaches(nodes, d) && i < |nodes| && !nodes[i].used
    ensures Reaches(nodes[i := n], d)
  {
    var p :| Path(nodes, p) && p[0] == d;
    PathKept(nodes, p, i, n);
  }

  lemma RootReaches(nodes: seq<Node>)
    requires RootOk(nodes)
    ensures Reaches(nodes, 0)
  {
    assert Path(nodes, [0]) && [0][0] == 0;
  }

  /** From a directory its parent reaches the root too. */
  lemma ParentReaches(nodes: seq<Node>, d: nat)
    requires RootOk(nodes) && Reaches(nodes, d)
    ensures d < |nodes| && Reaches(nodes, nodes[d].parent)
  {
    var p :| Path(nodes, p) && p[0] == d;
    if |p| == 1 {
      RootReaches(nodes);
    } else {
      assert Path(nodes, p[1..]) && p[1..][0] == nodes[d].parent;
    }
  }

  /** A child of a directory is not on the way up from it, unless it is the root. */
  lemma ChildOffPath(nodes: seq<Node>, p: seq<nat>, i: nat)
    requires Path(nodes, p) && i < |nodes| && i != 0 && nodes[i].parent == p[0]
    ensures i !in p
  {
    forall k | 0 <= k < |p|
      ensures p[k] != i
    {
      if k < |p| - 1 { assert p[k + 1] == nodes[p[k]].parent; }
    }
  }

  lemma ChildReaches(nodes: seq<Node>, i: nat)
    requires RootOk(nodes) && i < |nodes| && nodes[i].used && nodes[i].isDir && Reaches(nodes, nodes[i].parent)
    ensures Reaches(nodes, i)
  {
    if i == 0 {
      RootReaches(nodes);
    } else {
      var p :| Path(nodes, p) && p[0] == nodes[i].parent;
      ChildOffPath(nodes, p, i);
      assert Path(nodes, [i] + p) && ([i] + p)[0] == i;
    }
  }

  /** Every operation keeps the way from the current directory to the root. */
  lemma NextKeepsInv(fs: Fs, op: Op)
    requires Inv(fs)
    ensures Inv(Next(fs, op))
  {
    hide Path, Reaches;
    var r := Next(fs, op);
    match op
    case InitFs =>
      RootReaches(r.nodes);
    case MakeDir(name) =>
      var i := FirstFree(fs.nodes, 0);
      if i < MAX_NODES { Unused(fs.nodes, fs.current, i, Node(Cut(name), true, fs.current, true)); }
    case Touch(name) =>
      var i := FirstFree(fs.nodes, 0);
      if i < MAX_NODES { Unused(fs.nodes, fs.current, i, Node(Cut(name), false, fs.current, true)); }
    case ChangeDir(name) =>
      ParentReaches(fs.nodes, fs.current);
      if name != ".." && FindChild(fs, name, true, 0) < MAX_NODES { ChildReaches(fs.nodes, r.current); }
      InTable(fs.nodes, r.current);
    case Remove(name) =>
      var i := Victim(fs, name);
      if i < MAX_NODES { VictimOffPath(fs, i); }
  }

  lemma InTable(nodes: seq<Node>, d: nat)
    requires Reaches(nodes, d)
    ensures d < |nodes|
  {
  }

  lemma VictimOffPath(fs: Fs, i: nat)
    requires Inv(fs) && 0 < i < MAX_NODES && fs.nodes[i].parent == fs.current
    ensures Reaches(fs.nodes[i := fs.nodes[i].(used := false)], fs.current)
  {
    var p :| Path(fs.nodes, p) && p[0] == fs.current;
    ChildOffPath(fs.nodes, p, i);
    PathKept(fs.nodes, p, i, fs.nodes[i].(used := false));
  }

  // ---------- runs ----------

  /** The tree after `init_fs` and a sequence of operations. */
  ghost function After(ops: seq<Op>): (fs: Fs)
    ensures Inv(fs)
  {
    if ops == [] then StartOk(); Next(Boot(), InitFs)
    else
      var was := After(ops[..|ops| - 1]);
      NextKeepsInv(was, ops[|ops| - 1]);
      Next(was, ops[|ops| - 1])
  }

  lemma StartOk()
    ensures Inv(Next(Boot(), InitFs))
  {
    RootReaches(Next(Boot(), InitFs).nodes);
  }

  /** `n` steps up. */
  ghost function Up(fs: Fs, n: nat): nat
    requires |fs.nodes| == MAX_NODES && fs.current < MAX_NODES
  {
    if n == 0 then fs.current
    else
      var d := Up(fs, n - 1);
      if d < MAX_NODES then fs.nodes[d].parent else d
  }

  lemma {:induction false} UpIsPath(fs: Fs, p: seq<nat>, n: nat)
    requires |fs.nodes| == MAX_NODES && Path(fs.nodes, p) && p[0] == fs.current && n < |p|
    ensures Up(fs, n) == p[n]
  {
    if n > 0 { UpIsPath(fs, p, n - 1); }
  }

  /** After any sequence of operations, following the parents from the current directory reaches the root
      in at most 127 steps, through used directories only. */
  lemma CurrentReachesRoot(ops: seq<Op>) returns (n: nat)
    ensures n <= MAX_NODES - 1 && Up(After(ops), n) == 0
    ensures forall k :: 0 <= k <= n ==>
              var d := Up(After(ops), k); d < MAX_NODES && After(ops).nodes[d].used && After(ops).nodes[d].isDir
  {
    var fs := After(ops);
    var p :| Path(fs.nodes, p) && p[0] == fs.current;
    DifferentBelow(p, MAX_NODES);
    n := |p| - 1;
    UpIsPath(fs, p, n);
    forall k | 0 <= k <= n
      ensures Up(fs, k) == p[k]
    {
      UpIsPath(fs, p, k);
    }
  }

  // ---------- orphans ----------

  /** Every used node hangs on the root. */
  ghost predicate Rooted(fs: Fs) {
    Inv(fs) && forall i :: 0 <= i < MAX_NODES && fs.nodes[i].used ==> Reaches(fs.nodes, fs.nodes[i].parent)
  }

  ghost predicate HasChild(nodes: seq<Node>, d: nat) {
    exists i :: 0 <= i < |nodes| && nodes[i].used && nodes[i].parent == d
  }

  /** A tree in which every node hangs on the root stays one, except exactly when `rm` removes a node that
      still has a child. */
  lemma RootedExactly(fs: Fs, op: Op)
    requires Rooted(fs)
    ensures Rooted(Next(fs, op)) <==>
              !(op.Remove? && Victim(fs, op.name) < MAX_NODES && HasChild(fs.nodes, Victim(fs, op.name)))
  {
    hide Path, Reaches, HasChild;
    NextKeepsInv(fs, op);
    match op
    case InitFs =>
      RootReaches(Next(fs, op).nodes);
    case MakeDir(name) => CreateRooted(fs, name, true);
    case Touch(name) => CreateRooted(fs, name, false);
    case ChangeDir(name) =>
    case Remove(name) =>
      var i := Victim(fs, name);
      if i < MAX_NODES {
        if HasChild(fs.nodes, i) { RemoveOrphans(fs, i); } else { RemoveRooted(fs, i); }
      }
  }

  lemma CreateRooted(fs: Fs, name: string, isDir: bool)
    requires Rooted(fs)
    ensures Rooted(Create(fs, name, isDir))
  {
    hide Path, Reaches;
    var k := FirstFree(fs.nodes, 0);
    if k < MAX_NODES {
      var n := Node(Cut(name), isDir, fs.current, true);
      Unused(fs.nodes, fs.current, k, n);
      forall i | 0 <= i < MAX_NODES && i != k && fs.nodes[i].used
        ensures Reaches(fs.nodes[k := n], fs.nodes[i].parent)
      {
        Unused(fs.nodes, fs.nodes[i].parent, k, n);
      }
    }
  }

  /** Nothing used names a childless node as its parent, so no path leads through it. */
  lemma RemoveRooted(fs: Fs, i: nat)
    requires Rooted(fs) && 0 < i < MAX_NODES && !HasChild(fs.nodes, i) && fs.nodes[i].parent == fs.current
    ensures Rooted(fs.(nodes := fs.nodes[i := fs.nodes[i].(used := false)]))
  {
    var n := fs.nodes[i].(used := false);
    VictimOffPath(fs, i);
    forall j | 0 <= j < MAX_NODES && fs.nodes[j].used
      ensures Reaches(fs.nodes[i := n], fs.nodes[j].parent)
    {
      var p :| Path(fs.nodes, p) && p[0] == fs.nodes[j].parent;
      forall k | 0 <= k < |p|
        ensures p[k] != i
      {
        if k > 0 { assert fs.nodes[p[k - 1]].used && fs.nodes[p[k - 1]].parent == p[k]; }
      }
      PathKept(fs.nodes, p, i, n);
    }
  }

  lemma RemoveOrphans(fs: Fs, i: nat)
    requires Rooted(fs) && 0 < i < MAX_NODES && HasChild(fs.nodes, i) && fs.nodes[i].parent == fs.current
    ensures !Rooted(fs.(nodes := fs.nodes[i := fs.nodes[i].(used := false)]))
  {
    var nodes := fs.nodes[i := fs.nodes[i].(used := false)];
    var j :| 0 <= j < MAX_NODES && fs.nodes[j].used && fs.nodes[j].parent == i;
    if j == i {
      ParentIsNotSelf(fs.nodes, i);
    } else {
      assert nodes[j].used && !Reaches(nodes, i);
    }
  }

  lemma ParentIsNotSelf(nodes: seq<Node>, i: nat)
    requires 0 < i < |nodes| && Reaches(nodes, nodes[i].parent)
    ensures nodes[i].parent != i
  {
    var p :| Path(nodes, p) && p[0] == nodes[i].parent;
    if p[0] == i { ChildOffPath(nodes, p, i); }
  }

  lemma AfterStep(ops: seq<Op>, k: nat)
    requires k < |ops|
    ensures After(ops[..k + 1]) == Next(After(ops[..k]), ops[k])
  {
    assert ops[..k + 1][..k] == ops[..k];
  }

  lemma Creates(fs: Fs, name: string, isDir: bool, i: nat)
    requires |fs.nodes| == MAX_NODES && fs.current < MAX_NODES && |name| < NAME_LEN
    requires i < MAX_NODES && !fs.nodes[i].used && forall j :: 0 <= j < i ==> fs.nodes[j].used
    ensures Create(fs, name, isDir) == fs.(nodes := fs.nodes[i := Node(name, isDir, fs.current, true)])
  {
  }

  function Root(): Node { Node("root", true, 0, true) }

  function Story(): (ops: seq<Op>)
    ensures |ops| == 6
  {
    [MakeDir("a"), ChangeDir("a"), Touch("f"), ChangeDir(".."), Remove("a"), Touch("b")]
  }

  /** A file `f` in a directory `a` in the root. */
  lemma FileInDirectory()
    ensures var fs := After(Story()[..3]);
            && fs.current == 1
            && fs.nodes[0] == Root() && fs.nodes[1] == Node("a", true, 0, true) && fs.nodes[2] == Node("f", false, 1, true)
  {
    hide After, Create, Cut;
    AfterNothing();
    assert Story()[..0] == [];
    var s := Next(Boot(), InitFs);
    AfterStep(Story(), 0);
    Creates(s, "a", true, 1);
    var s1 := Create(s, "a", true);
    AfterStep(Story(), 1);
    assert !Child(s1.nodes[0], "a", 0) && Child(s1.nodes[1], "a", 0);
    var s2 := s1.(current := 1);
    assert Next(s1, ChangeDir("a")) == s2;
    AfterStep(Story(), 2);
    Creates(s2, "f", false, 2);
  }

  /** A concrete run: a file in a removed directory becomes the child of whatever takes the directory's slot,
      here another file. */
  lemma OrphanIsAdopted()
    ensures var fs := After(Story());
            && fs.nodes[0] == Root() && fs.nodes[1] == Node("b", false, 0, true) && fs.nodes[2] == Node("f", false, 1, true)
            && !Reaches(fs.nodes, 1)
  {
    hide After, Create, Cut;
    FileInDirectory();
    var s3 := After(Story()[..3]);
    AfterStep(Story(), 3);
    var s4 := s3.(current := 0);
    AfterStep(Story(), 4);
    assert !Child(s4.nodes[0], "a", 0) && Child(s4.nodes[1], "a", 0);
    var s5 := Next(s4, Remove("a"));
    AfterStep(Story(), 5);
    assert Story()[..6] == Story();
    Creates(s5, "b", false, 1);
  }

  lemma AfterNothing()
    ensures After([]) == Next(Boot(), InitFs)
  {
  }

  // ---------- the table ----------

  class Storage {
    const nodes: array<Node>
    var current: nat

    ghost predicate Valid()
      reads this, nodes
    {
      nodes.Length == MAX_NODES && Inv(Tree())
    }

    ghost function Tree(): Fs
      reads this, nodes
    {
      Fs(nodes[..], current)
    }

    constructor ()
      ensures Valid() && fresh(nodes) && Tree() == After([])
    {
      nodes := new Node[MAX_NODES](_ => Node("", true, 0, false));
      current := 0;
      new;
      assert Tree() == Boot();
      Init();
      StartOk();
    }

    /** `init_fs`. */
    method Init()
      requires nodes.Length == MAX_NODES && current < MAX_NODES
      modifies this, nodes
      ensures Tree() == Next(old(Tree()), InitFs)
    {
      for i := 0 to MAX_NODES
        invariant forall k :: 0 <= k < MAX_NODES ==>
                    nodes[k] == if k < i then old(nodes[k]).(used := false) else old(nodes[k])
      {
        nodes[i] := nodes[i].(used := false);
      }
      var root := StrCopy("root");
      nodes[0] := Node(root, true, 0, true);
      current := 0;
      assert nodes[..] == Next(old(Tree()), InitFs).nodes;
    }

    /** `fs_strcpy`. */
    method StrCopy(src: string) returns (dest: string)
      ensures dest == Cut(src)
    {
      dest := [];
      var i := 0;
      while i < |src| && i < NAME_LEN - 1
        invariant i <= |src| && i <= NAME_LEN - 1 && dest == src[..i]
      {
        dest := dest + [src[i]];
        i := i + 1;
      }
    }

    /** `mkdir` and `touch`; false when the table is full. */
    method CreateNode(name: string, isDir: bool) returns (done: bool)
      requires Valid()
      modifies nodes
      ensures Valid() && Tree() == Next(old(Tree()), if isDir then MakeDir(name) else Touch(name))
      ensures done <==> exists k :: 0 <= k < MAX_NODES && !old(nodes[k]).used
    {
      hide Path, Reaches;
      NextKeepsInv(Tree(), if isDir then MakeDir(name) else Touch(name));
      var i := 0;
      while i < MAX_NODES && nodes[i].used
        invariant i <= MAX_NODES && FirstFree(nodes[..], 0) == FirstFree(nodes[..], i)
        invariant forall k :: 0 <= k < i ==> nodes[k].used
      {
        i := i + 1;
      }
      if i == MAX_NODES { return false; }
      var kept := StrCopy(name);
      nodes[i] := Node(kept, isDir, current, true);
      return true;
    }

    /** `cd`. */
    method Cd(name: string)
      requires Valid()
      modifies this`current
      ensures Valid() && Tree() == Next(old(Tree()), ChangeDir(name))
    {
      hide Path, Reaches;
      NextKeepsInv(Tree(), ChangeDir(name));
      if name == ".." {
        current := nodes[current].parent;
        return;
      }
      var i := 0;
      while i < MAX_NODES && !(Child(nodes[i], name, current) && nodes[i].isDir)
        invariant i <= MAX_NODES && FindChild(Tree(), name, true, 0) == FindChild(Tree(), name, true, i)
      {
        i := i + 1;
      }
      if i < MAX_NODES { current := i; }
    }

    /** `rm`; true when a node was removed. */
    method Rm(name: string) returns (deleted: bool)
      requires Valid()
      modifies nodes
      ensures Valid() && Tree() == Next(old(Tree()), Remove(name))
      ensures deleted <==> Victim(old(Tree()), name) < MAX_NODES
    {
      hide Path, Reaches;
      NextKeepsInv(Tree(), Remove(name));
      var i := 0;
      while i < MAX_NODES && !Child(nodes[i], name, current)
        invariant i <= MAX_NODES && FindChild(Tree(), name, false, 0) == FindChild(Tree(), name, false, i)
      {
        i := i + 1;
      }
      if i == 0 || i == MAX_NODES { return false; }
      nodes[i] := nodes[i].(used := false);
      return true;
    }
  }
}
