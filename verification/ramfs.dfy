/**
 * The in-memory filesystem of src/ramfs.rs. A node is a shared, mutable
 * cell (`Rc<RefCell<Node>>`), modelled as an object of class `NodeRef`, so
 * that two directory entries, the directory stack and `CURRENT_DIR` can all
 * refer to the same node. What a node holds is a value: a directory maps
 * names to nodes, a file holds bytes.
 *
 * Each operation is a function on the node's value (its new value and its
 * result), and a method on `NodeRef` that performs it in place.
 */
module Ramfs {
  import opened Wrappers

  const EntryAlreadyExists: string := "Entry already exists"
  const NotADirectory: string := "Not a directory"
  const NotAFile: string := "Not a file"
  const EntryNotFound: string := "Entry not found"

  datatype Node = Directory(entries: map<string, NodeRef>) | File(content: seq<bv8>)

  /** `NodeRef`: one shared node, changed through `borrow_mut`. */
  class NodeRef {
    var node: Node

    constructor (n: Node)
      ensures node == n
    {
      node := n;
    }

    /** `add_entry` on this node. */
    method AddEntry(name: string, child: NodeRef) returns (result: Result<(), string>)
      modifies this
      ensures (node, result) == WithEntry(old(node), name, child)
    {
      match node {
        case Directory(entries) =>
          if name in entries {
            return Err(EntryAlreadyExists);
          }
          node := Directory(entries[name := child]);
          result := Ok(());
        case File(_) =>
          result := Err(NotADirectory);
      }
    }

    /** `remove_entry` on this node. */
    method RemoveEntry(name: string) returns (result: Result<(), string>)
      modifies this
      ensures (node, result) == WithoutEntry(old(node), name)
    {
      match node {
        case Directory(entries) =>
          if name in entries {
            node := Directory(entries - {name});
            result := Ok(());
          } else {
            result := Err(EntryNotFound);
          }
        case File(_) =>
          result := Err(NotADirectory);
      }
    }

    /** `write_file` on this node: the old content is replaced by `data`. */
    method WriteFile(data: seq<bv8>) returns (result: Result<(), string>)
      modifies this
      ensures (node, result) == WithContent(old(node), data)
    {
      match node {
        case File(content) =>
          node := File(data);
          result := Ok(());
        case Directory(_) =>
          result := Err(NotAFile);
      }
    }
  }

  /** `new_dir`: a fresh, empty directory node. */
  method NewDir() returns (r: NodeRef)
    ensures fresh(r) && r.node == Directory(map[])
  {
    r := new NodeRef(Directory(map[]));
  }

  /** `new_file`: a fresh, empty file node. */
  method NewFile() returns (r: NodeRef)
    ensures fresh(r) && r.node == File([])
  {
    r := new NodeRef(File([]));
  }

  // ---------------------------------------------------------------------------
  // The operations on node values

  /** `get_entry`: the node stored under `name`; nothing for a missing name or a file. */
  function GetEntry(n: Node, name: string): (r: Option<NodeRef>)
    ensures r.Some? <==> n.Directory? && name in n.entries
    ensures r.Some? ==> r.value == n.entries[name]
  {
    match n
    case Directory(entries) => if name in entries then Some(entries[name]) else None
    case File(_) => None
  }

  /** `read_file`: a copy of a file's bytes. */
  function ReadFile(n: Node): (r: Result<seq<bv8>, string>)
    ensures r.Ok? <==> n.File?
    ensures r.Ok? ==> r.value == n.content
    ensures r.Err? ==> r.error == NotAFile
  {
    match n
    case File(content) => Ok(content)
    case Directory(_) => Err(NotAFile)
  }

  /** The node value and the result after `add_entry`. */
  function WithEntry(n: Node, name: string, child: NodeRef): (r: (Node, Result<(), string>))
    ensures r.1.Ok? <==> n.Directory? && name !in n.entries
    ensures r.1.Err? ==> r.0 == n
    ensures r.1.Ok? ==> r.0.Directory? && r.0.entries.Keys == n.entries.Keys + {name}
  {
    match n
    case Directory(entries) =>
      if name in entries then (n, Err(EntryAlreadyExists)) else (Directory(entries[name := child]), Ok(()))
    case File(_) => (n, Err(NotADirectory))
  }

  /** The node value and the result after `remove_entry`. */
  function WithoutEntry(n: Node, name: string): (r: (Node, Result<(), string>))
    ensures r.1.Ok? <==> n.Directory? && name in n.entries
    ensures r.1.Err? ==> r.0 == n
    ensures r.1.Ok? ==> r.0.Directory? && r.0.entries.Keys == n.entries.Keys - {name}
  {
    match n
    case Directory(entries) =>
      if name in entries then (Directory(entries - {name}), Ok(())) else (n, Err(EntryNotFound))
    case File(_) => (n, Err(NotADirectory))
  }

  /** The node value and the result after `write_file`. */
  function WithContent(n: Node, data: seq<bv8>): (r: (Node, Result<(), string>))
    ensures r.1.Ok? <==> n.File?
    ensures r.1.Err? ==> r.0 == n
    ensures r.0.File? == n.File?
  {
    match n
    case File(_) => (File(data), Ok(()))
    case Directory(_) => (n, Err(NotAFile))
  }

  // ---------------------------------------------------------------------------
  // What the operations promise

  /**
   * `add_entry` succeeds exactly on a directory without the name; then the
   * name leads to the new child and every other name to what it led to
   * before. On failure nothing changes, and the error says why.
   */
  lemma AddEntryOutcome(n: Node, name: string, child: NodeRef, other: string)
    ensures var (m, result) := WithEntry(n, name, child);
      && (result == Ok(()) <==> n.Directory? && name !in n.entries)
      && (result.Ok? ==> GetEntry(m, name) == Some(child))
      && (other != name ==> GetEntry(m, other) == GetEntry(n, other))
      && (n.File? ==> result == Err(NotADirectory) && m == n)
      && (n.Directory? && name in n.entries ==> result == Err(EntryAlreadyExists) && m == n)
  {
  }

  /**
   * `remove_entry` succeeds exactly on a directory holding the name, which
   * is then gone; every other name keeps its node, and a failure changes
   * nothing.
   */
  lemma RemoveEntryOutcome(n: Node, name: string, other: string)
    ensures var (m, result) := WithoutEntry(n, name);
      && (result == Ok(()) <==> n.Directory? && name in n.entries)
      && GetEntry(m, name) == None
      && (other != name ==> GetEntry(m, other) == GetEntry(n, other))
      && (n.File? ==> result == Err(NotADirectory) && m == n)
      && (n.Directory? && name !in n.entries ==> result == Err(EntryNotFound) && m == n)
  {
  }

  /** Removing a name just added restores the directory. */
  lemma RemoveUndoesAdd(n: Node, name: string, child: NodeRef)
    requires WithEntry(n, name, child).1 == Ok(())
    ensures WithoutEntry(WithEntry(n, name, child).0, name) == (n, Ok(()))
  {
    var entries := n.entries;
    assert entries[name := child] - {name} == entries;
  }

  /**
   * `write_file` then `read_file` returns exactly the data written; on a
   * directory both fail with "Not a file" and the directory is unchanged.
   */
  lemma WriteThenRead(n: Node, data: seq<bv8>)
    ensures n.File? ==> WithContent(n, data) == (File(data), Ok(())) && ReadFile(WithContent(n, data).0) == Ok(data)
    ensures n.Directory? ==> WithContent(n, data) == (n, Err(NotAFile)) && ReadFile(n) == Err(NotAFile)
  {
  }

  /** Only the last of two writes is kept. */
  lemma WriteTwice(n: Node, first: seq<bv8>, second: seq<bv8>)
    ensures WithContent(WithContent(n, first).0, second) == WithContent(n, second)
  {
  }

  // ---------------------------------------------------------------------------
  // ROOT_DIR and CURRENT_DIR

  /** The two global node slots. */
  class FileSystem {
    var root: Option<NodeRef>
    var current: Option<NodeRef>

    constructor ()
      ensures root == None && current == None
    {
      root := None;
      current := None;
    }

    /**
     * `init_fs`: both slots receive a fresh empty directory, but not the
     * same one: `CURRENT_DIR` gets the first directory built and `ROOT_DIR`
     * a second one.
     */
    method InitFs()
      modifies this
      ensures root.Some? && current.Some?
      ensures fresh(root.value) && fresh(current.value) && root.value != current.value
      ensures root.value.node == Directory(map[]) && current.value.node == Directory(map[])
    {
      var first := NewDir();
      var second := NewDir();
      root := Some(second);
      current := Some(first);
    }
  }
}
