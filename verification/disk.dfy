/**
 * The part of the file system the editor code writes to: a set of directories and a map from
 * file path to contents. Directory.CreateDirectory, File writes and File.Delete are the
 * operations; a sequence of them is a trace.
 */
module Disk {

  datatype FsOp =
    | MakeDirectory(path: string)
    | WriteFile(path: string, data: string)
    | DeleteFile(path: string)

  datatype Tree = Tree(dirs: set<string>, files: map<string, string>)

  const EmptyTree := Tree({}, map[])

  /** One operation: create (idempotently), write with overwrite, delete if present. */
  function Apply(t: Tree, op: FsOp): Tree
  {
    match op
    case MakeDirectory(p) => t.(dirs := t.dirs + {p})
    case WriteFile(p, d) => t.(files := t.files[p := d])
    case DeleteFile(p) => t.(files := t.files - {p})
  }

  /** The operations of a trace applied in order. */
  function ApplyAll(t: Tree, ops: seq<FsOp>): Tree
  {
    if |ops| == 0 then t else Apply(ApplyAll(t, ops[..|ops| - 1]), ops[|ops| - 1])
  }

  lemma {:induction false} ApplyAllAppend(t: Tree, ops: seq<FsOp>, more: seq<FsOp>)
    ensures ApplyAll(t, ops + more) == ApplyAll(ApplyAll(t, ops), more)
  {
    if |more| == 0 {
      assert ops + more == ops;
    } else {
      assert (ops + more)[..|ops + more| - 1] == ops + more[..|more| - 1];
      ApplyAllAppend(t, ops, more[..|more| - 1]);
    }
  }

  /** One more operation at the end of a trace. */
  lemma ApplyAllSnoc(t: Tree, ops: seq<FsOp>, op: FsOp)
    ensures ApplyAll(t, ops + [op]) == Apply(ApplyAll(t, ops), op)
  {
    assert (ops + [op])[..|ops|] == ops;
  }

  /** A trace that only creates directories and writes files. */
  predicate Additive(ops: seq<FsOp>)
  {
    forall k :: 0 <= k < |ops| ==> !ops[k].DeleteFile?
  }

  /**
   * An additive trace adds a fixed set of directories and overrides a fixed map of files,
   * whatever the tree it starts from: what it leaves behind does not depend on what was there.
   */
  lemma {:induction false} AdditiveEffect(t: Tree, ops: seq<FsOp>)
    requires Additive(ops)
    ensures ApplyAll(t, ops).dirs == t.dirs + ApplyAll(EmptyTree, ops).dirs
    ensures ApplyAll(t, ops).files == t.files + ApplyAll(EmptyTree, ops).files
  {
    if |ops| > 0 {
      var init := ops[..|ops| - 1];
      assert Additive(init) by {
        forall k | 0 <= k < |init| ensures !init[k].DeleteFile? {
          assert init[k] == ops[k];
        }
      }
      AdditiveEffect(t, init);
      match ops[|ops| - 1]
      case MakeDirectory(p) =>
      case WriteFile(p, d) =>
        var before := ApplyAll(EmptyTree, init).files;
        assert (t.files + before)[p := d] == t.files + before[p := d];
    }
  }

  /** Replaying an additive trace changes nothing (overwriting extraction is idempotent). */
  lemma AdditiveIdempotent(t: Tree, ops: seq<FsOp>)
    requires Additive(ops)
    ensures ApplyAll(ApplyAll(t, ops), ops) == ApplyAll(t, ops)
  {
    var once := ApplyAll(t, ops);
    var eff := ApplyAll(EmptyTree, ops);
    AdditiveEffect(t, ops);
    AdditiveEffect(once, ops);
    assert (t.files + eff.files) + eff.files == t.files + eff.files;
  }

  /** The file system as a mutable object; every change goes through Perform. */
  class FileSystem {
    var dirs: set<string>
    var files: map<string, string>

    function State(): Tree
      reads this
    {
      Tree(dirs, files)
    }

    constructor (t: Tree)
      ensures State() == t
    {
      dirs := t.dirs;
      files := t.files;
    }

    method Perform(op: FsOp)
      modifies this
      ensures State() == Apply(old(State()), op)
    {
      match op
      case MakeDirectory(p) => dirs := dirs + {p};
      case WriteFile(p, d) => files := files[p := d];
      case DeleteFile(p) => files := files - {p};
    }
  }
}
