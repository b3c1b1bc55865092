/** The destination tree as a map from path to file bytes, and what
    writing a run of archive members into it leaves there. */
module Disk {
  import opened Archive

  type Files = map<string, seq<byte>>

  /** `os.path.join(dir, name)` for a relative `name`: one separator
      between the two parts. */
  function Join(dir: string, name: string): string
  {
    if dir == [] || dir[|dir| - 1] == '/' then dir + name else dir + "/" + name
  }

  /** Distinct member names land on distinct paths. */
  lemma JoinInjective(dir: string, a: string, b: string)
    ensures Join(dir, a) == Join(dir, b) ==> a == b
  {
    if Join(dir, a) == Join(dir, b) {
      var k := if dir == [] || dir[|dir| - 1] == '/' then |dir| else |dir| + 1;
      assert a == Join(dir, a)[k..];
      assert b == Join(dir, b)[k..];
    }
  }

  /** The files after each member of `es`, in order, has been written whole
      at its joined path; a later member overwrites an earlier one there. */
  function Written(files: Files, out: string, es: seq<Entry>): Files
  {
    if es == [] then files
    else
      var last := es[|es| - 1];
      Written(files, out, es[..|es| - 1])[Join(out, last.name) := last.content]
  }

  lemma WrittenAppend(files: Files, out: string, es: seq<Entry>, e: Entry)
    ensures Written(files, out, es + [e]) == Written(files, out, es)[Join(out, e.name) := e.content]
  {
    assert (es + [e])[..|es|] == es;
  }

  /** Only the members' own bytes: the paths `es` writes and what ends up
      at each. */
  function Writes(out: string, es: seq<Entry>): Files
  {
    Written(map[], out, es)
  }

  /** Writing members lays their files over whatever was there: every
      path they do not touch keeps its old bytes. */
  lemma {:induction false} WrittenIsOverlay(files: Files, out: string, es: seq<Entry>)
    ensures Written(files, out, es) == files + Writes(out, es)
  {
    if es != [] {
      var init := es[..|es| - 1];
      WrittenIsOverlay(files, out, init);
      WrittenIsOverlay(map[], out, init);
      assert map[] + Writes(out, init) == Writes(out, init);
    } else {
      assert files + map[] == files;
    }
  }

  /** Writing the same members a second time changes nothing: opening with
      "wb" truncates, so the second copy replaces the first byte for byte. */
  lemma WrittenIdempotent(files: Files, out: string, es: seq<Entry>)
    ensures Written(Written(files, out, es), out, es) == Written(files, out, es)
  {
    WrittenIsOverlay(files, out, es);
    WrittenIsOverlay(Written(files, out, es), out, es);
    var w := Writes(out, es);
    assert (files + w) + w == files + w;
  }

  /** The paths present afterwards are the old ones and the members' own. */
  lemma {:induction false} WrittenKeys(files: Files, out: string, es: seq<Entry>)
    ensures forall p :: p in Written(files, out, es) <==>
      p in files || exists i :: 0 <= i < |es| && Join(out, es[i].name) == p
  {
    if es != [] {
      var init := es[..|es| - 1];
      WrittenKeys(files, out, init);
      forall p | p in Written(files, out, es)
        ensures p in files || exists i :: 0 <= i < |es| && Join(out, es[i].name) == p
      {
        if p != Join(out, es[|es| - 1].name) && p !in files {
          var i :| 0 <= i < |init| && Join(out, init[i].name) == p;
          assert es[i] == init[i];
        }
      }
      forall p | exists i :: 0 <= i < |es| && Join(out, es[i].name) == p
        ensures p in Written(files, out, es)
      {
        var i :| 0 <= i < |es| && Join(out, es[i].name) == p;
        if i < |init| {
          assert init[i] == es[i];
        }
      }
    }
  }

  /** A member that no later member shadows leaves exactly its own bytes at
      its path. */
  lemma {:induction false} WrittenContent(files: Files, out: string, es: seq<Entry>, i: nat)
    requires i < |es|
    requires forall j :: i < j < |es| ==> es[j].name != es[i].name
    ensures Join(out, es[i].name) in Written(files, out, es)
    ensures Written(files, out, es)[Join(out, es[i].name)] == es[i].content
  {
    var last := es[|es| - 1];
    if i < |es| - 1 {
      var init := es[..|es| - 1];
      assert init[i] == es[i];
      WrittenContent(files, out, init, i);
      JoinInjective(out, last.name, es[i].name);
    }
  }

  /** With distinct names, every member's bytes can be found at its path. */
  lemma WrittenAllContent(files: Files, out: string, es: seq<Entry>)
    requires DistinctNames(es)
    ensures forall i :: 0 <= i < |es| ==>
      Join(out, es[i].name) in Written(files, out, es) &&
      Written(files, out, es)[Join(out, es[i].name)] == es[i].content
  {
    forall i | 0 <= i < |es|
      ensures Join(out, es[i].name) in Written(files, out, es)
      ensures Written(files, out, es)[Join(out, es[i].name)] == es[i].content
    {
      WrittenContent(files, out, es, i);
    }
  }

  /** The destination filesystem: the bytes of every file by path. */
  class FileSystem {
    var files: Files

    constructor (initial: Files)
      ensures files == initial
    {
      files := initial;
    }

    /** `open(path, "wb")`: create the file, or truncate it if it exists. */
    method OpenWrite(path: string)
      modifies this
      ensures files == old(files)[path := []]
    {
      files := files[path := []];
    }

    /** `write(chunk)` on a file open for writing: append at its end. */
    method Append(path: string, chunk: seq<byte>)
      requires path in files
      modifies this
      ensures files == old(files)[path := old(files)[path] + chunk]
    {
      files := files[path := files[path] + chunk];
    }
  }
}
