/** What each command does to the tree, and which commands undo one another (i386/whitex/fs.h, i386/whitex/fssdd.h:14-48). */
module DirCommands {
  import opened Common
  import opened DirTree

  // ---------- one command ----------

  /** Node `i` is what `name` means in the current directory. */
  ghost predicate Named(fs: Fs, name: string, i: nat) {
    i < |fs.nodes| && fs.nodes[i].used && fs.nodes[i].name == name && fs.nodes[i].parent == fs.current
  }

  ghost predicate FirstNamed(fs: Fs, name: string, k: nat) {
    Named(fs, name, k) && forall i: nat :: i < k ==> !Named(fs, name, i)
  }

  ghost predicate FirstDir(fs: Fs, name: string, k: nat) {
    Named(fs, name, k) && fs.nodes[k].isDir && forall i: nat :: i < k ==> !(Named(fs, name, i) && fs.nodes[i].isDir)
  }

  ghost predicate Free(fs: Fs, k: nat) {
    k < |fs.nodes| && !fs.nodes[k].used && forall i :: 0 <= i < k ==> fs.nodes[i].used
  }

  ghost predicate Full(fs: Fs) { forall i :: 0 <= i < |fs.nodes| ==> fs.nodes[i].used }

  ghost predicate Sized(fs: Fs) { |fs.nodes| == 128 && fs.current < 128 }

  /** `mkdir` and `touch` put a node of their kind under the current directory into the first free slot, with the first 31
      characters of its name; a full table stays as it is. */
  lemma CreationDoes(fs: Fs, op: Op)
    requires Sized(fs) && (op.MakeDir? || op.Touch?)
    ensures var r := Next(fs, op);
            && (Full(fs) ==> r == fs)
            && forall k: nat :: Free(fs, k) ==>
                 && r == fs.(nodes := fs.nodes[k := r.nodes[k]])
                 && r.nodes[k].used && r.nodes[k].isDir == op.MakeDir? && r.nodes[k].parent == fs.current
                 && r.nodes[k].name == if |op.name| > 31 then op.name[..31] else op.name
  {
    var f := FirstFree(fs.nodes, 0);
    forall k: nat | Free(fs, k)
      ensures k == f
    {
    }
  }

  /** `cd ..` moves to the parent, `cd name` to the first directory of that name, and nowhere if there is none; the nodes stay
      as they are. */
  lemma ChangeDoes(fs: Fs, name: string)
    requires Sized(fs)
    ensures var r := Next(fs, ChangeDir(name));
            && r.nodes == fs.nodes
            && (name == ".." ==> r.current == fs.nodes[fs.current].parent)
            && (name != ".." && (forall k: nat :: !FirstDir(fs, name, k)) ==> r == fs)
            && (name != ".." ==> forall k: nat :: FirstDir(fs, name, k) ==> r.current == k)
  {
    var f := FindChild(fs, name, true, 0);
    if f < |fs.nodes| { assert FirstDir(fs, name, f); }
    forall k: nat | FirstDir(fs, name, k)
      ensures k == f
    {
      assert Child(fs.nodes[k], name, fs.current);
    }
  }

  /** `rm` frees the first node of that name, file or directory, but never the root; otherwise it does nothing. */
  lemma RemoveDoes(fs: Fs, name: string)
    requires Sized(fs)
    ensures var r := Next(fs, Remove(name));
            && r.current == fs.current
            && ((forall k: nat :: !FirstNamed(fs, name, k)) || FirstNamed(fs, name, 0) ==> r == fs)
            && forall k: nat :: FirstNamed(fs, name, k) && k > 0 ==> r.nodes == fs.nodes[k := fs.nodes[k].(used := false)]
  {
    var f := FindChild(fs, name, false, 0);
    if f < |fs.nodes| { assert FirstNamed(fs, name, f); }
    forall k: nat | FirstNamed(fs, name, k)
      ensures k == f
    {
      assert Child(fs.nodes[k], name, fs.current);
    }
  }

  /** `init_fs` leaves the root alone in use, and in it. */
  lemma InitDoes(fs: Fs)
    requires Sized(fs)
    ensures var r := Next(fs, InitFs);
            Sized(r) && r.current == 0 && r.nodes[0] == Node("root", true, 0, true) && forall i :: 0 < i < 128 ==> !r.nodes[i].used
  {
  }

  // ---------- commands that undo one another ----------

  /** The same nodes are in use, and they are the same. */
  ghost predicate SameTree(a: Fs, b: Fs) {
    && |b.nodes| == |a.nodes| && b.current == a.current
    && forall i :: 0 <= i < |a.nodes| ==> b.nodes[i].used == a.nodes[i].used && (a.nodes[i].used ==> b.nodes[i] == a.nodes[i])
  }

  ghost predicate ShortNames(fs: Fs) { forall i :: 0 <= i < |fs.nodes| ==> |fs.nodes[i].name| <= 31 }

  /** Removing the file or directory just created under a new name restores the tree exactly if the name was kept whole. */
  lemma CreateThenRemove(fs: Fs, op: Op)
    requires Sized(fs) && RootOk(fs.nodes) && ShortNames(fs) && (op.MakeDir? || op.Touch?) && !Full(fs)
    requires forall i: nat :: !Named(fs, op.name, i)
    ensures SameTree(fs, Next(Next(fs, op), Remove(op.name))) <==> |op.name| <= 31
  {
    var k := FirstFree(fs.nodes, 0);
    assert Free(fs, k);
    CreationDoes(fs, op);
    var a := Next(fs, op);
    assert a.nodes[k].used && forall i :: 0 <= i < |fs.nodes| && i != k ==> a.nodes[i] == fs.nodes[i];
    assert forall i: nat :: i != k && Named(a, op.name, i) ==> Named(fs, op.name, i);
    RemoveDoes(a, op.name);
    hide Next;
    if |op.name| <= 31 {
      assert FirstNamed(a, op.name, k);
    } else {
      assert !Named(a, op.name, k);
      assert forall i: nat :: !FirstNamed(a, op.name, i);
    }
  }

  /** Going into a directory just made under a new name and up again leads back; from a kept name the way in leads to it. */
  lemma MakeEnterLeave(fs: Fs, name: string)
    requires Sized(fs) && !Full(fs) && |name| <= 31 && name != ".." && forall i: nat :: !Named(fs, name, i)
    ensures var made := Next(fs, MakeDir(name));
            var inside := Next(made, ChangeDir(name));
            && Free(fs, inside.current) && inside.nodes == made.nodes
            && Next(inside, ChangeDir("..")) == made
  {
    var k := FirstFree(fs.nodes, 0);
    assert Free(fs, k);
    CreationDoes(fs, MakeDir(name));
    var made := Next(fs, MakeDir(name));
    assert forall i: nat :: i != k && Named(made, name, i) ==> Named(fs, name, i);
    assert FirstDir(made, name, k);
    ChangeDoes(made, name);
    ChangeDoes(Next(made, ChangeDir(name)), "..");
  }

  /** Removing a directory that has been left and is still used frees only its own slot: what is inside stays in use. */
  lemma ContentsStay(fs: Fs, name: string, i: nat)
    requires Sized(fs) && i < 128 && fs.nodes[i].used && !FirstNamed(fs, name, i)
    ensures Next(fs, Remove(name)).nodes[i] == fs.nodes[i]
  {
    RemoveDoes(fs, name);
    var f := FindChild(fs, name, false, 0);
    assert f < |fs.nodes| ==> FirstNamed(fs, name, f) by {
      if f < |fs.nodes| {
        forall j: nat | j < f
          ensures !Named(fs, name, j)
        {
          assert !Child(fs.nodes[j], name, fs.current);
        }
      }
    }
  }
}
