/**
 * The command shell of src/shell.rs: the command line is split into words,
 * the first word selects a command, and the commands act on the current
 * directory of the in-memory filesystem, on the directory stack and on the
 * terminal. `get_path` renders the directory stack as a path.
 *
 * The messages the commands print (usage lines, errors, `help`, `ls`,
 * `open`, greetings) are not written to the terminal in this model.
 */
module Shell {
  import opened Wrappers
  import opened Text
  import opened Ramfs
  import Utf8
  import Terminal
  import opened VgaBuffer

  const UnknownPart: string := "<unknown>"
  const NotADirectoryPart: string := "<not a directory>"
  const HistoryCapacity: nat := 10

  // ---------------------------------------------------------------------------
  // Parsing the command line

  /** The command a line selects, with the words it uses. */
  datatype Command =
    | Blank
    | Clear
    | Mkdir(name: Option<string>)
    | Touch(name: Option<string>)
    | Cd(name: Option<string>)
    | Rm(name: Option<string>)
    | Rmdir(name: Option<string>)
    | Write(name: Option<string>, text: seq<string>)
      /** `help`, `off`, `restart`, `time`, `ls`, `open`, the greetings and unknown words: none changes the filesystem. */
    | Other(word: string)

  /**
   * `command.trim().split_whitespace()`, then the command its words select.
   * The trim makes no difference: the words are those of the whole line.
   */
  function Parse(command: string): (c: Command)
    ensures c == Select(Words(command))
  {
    WordsOfTrim(command);
    Select(Words(Trim(command)))
  }

  /**
   * The first word selects the command (none: the empty command), the
   * second is its argument, and `write` takes all further words as its text.
   */
  function Select(ws: seq<string>): (c: Command)
    ensures c.Blank? <==> ws == [] || ws[0] == ""
    ensures c.Other? ==> ws != [] && c.word == ws[0] && c.word !in {"", "clear", "mkdir", "touch", "cd", "rm", "rmdir", "write"}
    ensures ws != [] ==>
      && (c.Clear? <==> ws[0] == "clear") && (c.Mkdir? <==> ws[0] == "mkdir")
      && (c.Touch? <==> ws[0] == "touch") && (c.Cd? <==> ws[0] == "cd") && (c.Rm? <==> ws[0] == "rm")
      && (c.Rmdir? <==> ws[0] == "rmdir") && (c.Write? <==> ws[0] == "write")
    ensures c.Mkdir? || c.Touch? || c.Cd? || c.Rm? || c.Rmdir? || c.Write? ==>
      (c.name.Some? <==> |ws| >= 2) && (c.name.Some? ==> c.name.value == ws[1])
    ensures c.Write? && |ws| >= 2 ==> [ws[0], ws[1]] + c.text == ws
    ensures c.Write? && |ws| < 2 ==> c.text == []
  {
    var first := if ws == [] then "" else ws[0];
    var arg := if |ws| > 1 then Some(ws[1]) else None;
    if first == "" then Blank
    else if first == "clear" then Clear
    else if first == "mkdir" then Mkdir(arg)
    else if first == "touch" then Touch(arg)
    else if first == "cd" then Cd(arg)
    else if first == "rm" then Rm(arg)
    else if first == "rmdir" then Rmdir(arg)
    else if first == "write" then Write(arg, if |ws| > 2 then ws[2..] else [])
    else Other(first)
  }

  /** A line selects the empty command exactly when it is all whitespace. */
  lemma ParseBlank(command: string)
    ensures Parse(command).Blank? <==> AllWhitespace(command)
  {
    var ws := Words(Trim(command));
    WordsOfTrim(command);
    WordsEmpty(command);
    WordsAreWords(Trim(command));
    SelectBlank(ws);
  }

  lemma SelectBlank(ws: seq<string>)
    requires ws == [] || ws[0] != ""
    ensures Select(ws).Blank? <==> ws == []
  {
  }

  /** Whitespace around a line never changes the command it selects. */
  lemma ParseIgnoresPadding(before: string, command: string, after: string)
    requires AllWhitespace(before) && AllWhitespace(after)
    ensures Parse(before + command + after) == Parse(command)
  {
    WordsOfTrim(before + command + after);
    WordsOfTrim(command);
    WordsAfterPadding(before + command, after);
    WordsBeforePadding(before, command);
  }

  lemma {:induction false} WordsBeforePadding(padding: string, s: string)
    requires AllWhitespace(padding)
    ensures Words(padding + s) == Words(s)
    decreases |padding|
  {
    if padding != [] {
      assert (padding + s)[1..] == padding[1..] + s;
      assert AllWhitespace(padding[1..]) by {
        forall i | 0 <= i < |padding| - 1 ensures IsWhitespace(padding[1..][i]) { assert padding[1..][i] == padding[i + 1]; }
      }
      WordsBeforePadding(padding[1..], s);
    } else {
      assert padding + s == s;
    }
  }

  lemma {:induction false} WordsAfterPadding(s: string, padding: string)
    requires AllWhitespace(padding)
    ensures Words(s + padding) == Words(s)
    decreases |padding|
  {
    if padding != [] {
      var p := padding[..|padding| - 1];
      assert AllWhitespace(p) by { forall i | 0 <= i < |p| ensures IsWhitespace(p[i]) { assert p[i] == padding[i]; } }
      WordsAfterPadding(s, p);
      WordsAppendSpace(s + p, padding[|padding| - 1]);
      assert s + p + [padding[|padding| - 1]] == s + padding;
    } else {
      assert s + padding == s;
    }
  }

  /**
   * The text `write` stores is its words joined by single spaces: it is
   * empty exactly when no word follows the file name, and splitting it
   * gives those words back.
   */
  lemma WriteTextRoundTrip(command: string)
    requires Parse(command).Write?
    ensures var text := Parse(command).text;
      && (Join(text, " ") == [] <==> text == [])
      && Words(Join(text, " ")) == text
  {
    WordsAreWords(Trim(command));
    WriteWords(Words(Trim(command)));
  }

  lemma WriteWords(ws: seq<string>)
    requires forall i | 0 <= i < |ws| :: ws[i] != [] && NoWhitespace(ws[i])
    requires Select(ws).Write?
    ensures var text := Select(ws).text;
      && (Join(text, " ") == [] <==> text == [])
      && Words(Join(text, " ")) == text
  {
    var text := Select(ws).text;
    assert text == if |ws| > 2 then ws[2..] else [];
    assert forall i | 0 <= i < |text| :: text[i] == ws[i + 2];
    JoinEmpty(text);
    WordsOfJoin(text);
  }

  // ---------------------------------------------------------------------------
  // get_path

  /** The names under which `entries` holds `child`. */
  function NamesOf(entries: map<string, NodeRef>, child: NodeRef): set<string>
  {
    set k | k in entries && entries[k] == child
  }

  /**
   * The path component for `child` below a node holding `parent`: the first
   * name, in key order, under which the directory holds that very node;
   * "<unknown>" if it holds it under none, "<not a directory>" under a file.
   */
  ghost predicate IsComponent(parent: Node, child: NodeRef, name: string)
  {
    match parent
    case File(_) => name == NotADirectoryPart
    case Directory(entries) =>
      if NamesOf(entries, child) == {} then name == UnknownPart
      else name in NamesOf(entries, child) && IsLeast(name, NamesOf(entries, child))
  }

  /** There is exactly one component for a child. */
  lemma ComponentUnique(parent: Node, child: NodeRef, a: string, b: string)
    requires IsComponent(parent, child, a) && IsComponent(parent, child, b)
    ensures a == b
  {
    if parent.Directory? && NamesOf(parent.entries, child) != {} {
      LexAntisymmetric(a, b);
    }
  }

  ghost function Component(parent: Node, child: NodeRef): (name: string)
    ensures IsComponent(parent, child, name)
  {
    if parent.Directory? && NamesOf(parent.entries, child) != {} then
      LeastExists(NamesOf(parent.entries, child));
      var name :| name in NamesOf(parent.entries, child) && IsLeast(name, NamesOf(parent.entries, child));
      name
    else if parent.Directory? then UnknownPart
    else NotADirectoryPart
  }

  /** A child held under one name only gets that name as its component. */
  lemma ComponentOfOnlyName(entries: map<string, NodeRef>, name: string)
    requires name in entries
    requires forall k | k in entries && k != name :: entries[k] != entries[name]
    ensures Component(Directory(entries), entries[name]) == name
  {
    var child := entries[name];
    assert NamesOf(entries, child) == {name};
    LexReflexive(name);
    ComponentUnique(Directory(entries), child, Component(Directory(entries), child), name);
  }

  /** The components of a directory stack: one per node below the first. */
  ghost function Components(stack: seq<NodeRef>): (parts: seq<string>)
    reads stack
    ensures |parts| == if |stack| < 2 then 0 else |stack| - 1
    decreases |stack|
  {
    if |stack| < 2 then []
    else Components(stack[..|stack| - 1]) + [Component(stack[|stack| - 2].node, stack[|stack| - 1])]
  }

  /** The path of a directory stack: "/" followed by its components joined by "/". */
  ghost function Path(stack: seq<NodeRef>): (p: string)
    reads stack
    ensures |p| >= 1 && p[0] == '/'
    ensures |stack| < 2 ==> p == "/"
  {
    "/" + Join(Components(stack), "/")
  }

  /**
   * Entering a directory extends the path by that directory's component,
   * after a "/" unless the stack held only the root.
   */
  lemma PathOfPush(stack: seq<NodeRef>, child: NodeRef)
    requires |stack| >= 1
    ensures Path(stack + [child]) ==
      (if |stack| == 1 then "/" else Path(stack) + "/") + Component(stack[|stack| - 1].node, child)
  {
    var s := stack + [child];
    assert s[..|s| - 1] == stack;
    if |stack| >= 2 {
      JoinAppend(Components(stack), Component(stack[|stack| - 1].node, child), "/");
    } else {
      assert Components(stack) == [];
    }
  }

  /** `get_path`: the path of the directory stack, "/" for an empty one. */
  method GetPath(stack: seq<NodeRef>) returns (path: string)
    ensures path == Path(stack)
  {
    if stack == [] {
      return "/";
    }
    var parts: seq<string> := [];
    for i := 1 to |stack|
      invariant parts == Components(stack[..i])
    {
      var current := stack[i];
      var parent := stack[i - 1];
      var part: string;
      match parent.node {
        case Directory(entries) =>
          var name := FirstName(entries, current);
          part := if name.Some? then name.value else UnknownPart;
        case File(_) =>
          part := NotADirectoryPart;
      }
      ComponentUnique(parent.node, current, part, Component(parent.node, current));
      parts := parts + [part];
      assert stack[..i + 1][..i] == stack[..i];
    }
    assert stack[..|stack|] == stack;
    path := "/" + Join(parts, "/");
  }

  /**
   * The `find_map` over a directory's entries: the first name, in key
   * order, under which the directory holds `child` itself. The entries are
   * visited in any order, keeping the least matching name seen.
   */
  method FirstName(entries: map<string, NodeRef>, child: NodeRef) returns (name: Option<string>)
    ensures name.None? <==> NamesOf(entries, child) == {}
    ensures name.Some? ==> name.value in NamesOf(entries, child) && IsLeast(name.value, NamesOf(entries, child))
  {
    var unseen := entries.Keys;
    name := None;
    while unseen != {}
      invariant unseen <= entries.Keys
      invariant name.Some? ==> name.value in NamesOf(entries, child)
      invariant forall k | k in NamesOf(entries, child) && k !in unseen :: name.Some? && LexLessEq(name.value, k)
      decreases unseen
    {
      var k :| k in unseen;
      if entries[k] == child {
        if name.None? || !LexLessEq(name.value, k) {
          if name.Some? {
            LexTotal(name.value, k);
            forall j | j in NamesOf(entries, child) && j !in unseen ensures LexLessEq(k, j) {
              LexTransitive(k, name.value, j);
            }
          }
          LexReflexive(k);
          name := Some(k);
        }
      }
      unseen := unseen - {k};
    }
  }

  // ---------------------------------------------------------------------------
  // The commands, as functions of the filesystem

  /** The nodes a directory node holds. */
  function Children(d: NodeRef): set<NodeRef>
    reads d
  {
    if d.node.Directory? then d.node.entries.Values else {}
  }

  /**
   * The directory stack after `cd`: `..` leaves the top directory unless
   * only the root is left; a name enters the directory it names; anything
   * else (no argument, a missing name, a file) keeps the stack. The root
   * stays at the bottom of a non-empty stack, and what is pushed is the
   * directory the current one holds under the name.
   */
  function CdStack(stack: seq<NodeRef>, current: NodeRef, arg: Option<string>): (r: seq<NodeRef>)
    reads current, Children(current)
    ensures |stack| >= 1 ==> |r| >= 1 && r[0] == stack[0]
    ensures |r| > |stack| ==>
      && arg.Some? && current.node.Directory? && arg.value in current.node.entries
      && r == stack + [current.node.entries[arg.value]] && r[|r| - 1].node.Directory?
    ensures |r| < |stack| ==> arg == Some("..") && r == stack[..|stack| - 1]
    ensures |r| == |stack| ==> r == stack
  {
    match arg
    case None => stack
    case Some(name) =>
      if name == ".." then
        (if |stack| > 1 then stack[..|stack| - 1] else stack)
      else
        match GetEntry(current.node, name)
        case Some(child) => if child.node.Directory? then stack + [child] else stack
        case None => stack
  }

  /** `cd ..` right after entering a directory returns to the stack before. */
  lemma CdThenBack(stack: seq<NodeRef>, current: NodeRef, name: string)
    requires |stack| >= 1
    requires |CdStack(stack, current, Some(name))| > |stack|
    ensures var after := CdStack(stack, current, Some(name));
      CdStack(after, after[|after| - 1], Some("..")) == stack
  {
    var after := CdStack(stack, current, Some(name));
    assert after[..|after| - 1] == stack;
  }

  /** `cd ..` at the root keeps the stack. */
  lemma CdAtRoot(stack: seq<NodeRef>, current: NodeRef)
    requires |stack| == 1
    ensures CdStack(stack, current, Some("..")) == stack
  {
  }

  /** The directory value after `rm name`: the entry goes only if it names a file. */
  function AfterRm(n: Node, name: string): (r: Node)
    reads if n.Directory? then n.entries.Values else {}
    ensures r == n || r == WithoutEntry(n, name).0
    ensures r.Directory? == n.Directory?
  {
    match GetEntry(n, name)
    case Some(child) => if child.node.File? then WithoutEntry(n, name).0 else n
    case None => n
  }

  /** The directory value after `rmdir name`: the entry goes only if it names an empty directory. */
  function AfterRmdir(n: Node, name: string): (r: Node)
    reads if n.Directory? then n.entries.Values else {}
    ensures r == n || r == WithoutEntry(n, name).0
    ensures r.Directory? == n.Directory?
  {
    match GetEntry(n, name)
    case Some(child) => if child.node == Directory(map[]) then WithoutEntry(n, name).0 else n
    case None => n
  }

  /**
   * `rm` removes the entry exactly when it names a file, and touches no
   * other name; `rmdir` likewise for an empty directory.
   */
  lemma RemoveOnlyMatching(n: Node, name: string, other: string)
    ensures AfterRm(n, name) != n <==> GetEntry(n, name).Some? && GetEntry(n, name).value.node.File?
    ensures AfterRmdir(n, name) != n <==> GetEntry(n, name).Some? && GetEntry(n, name).value.node == Directory(map[])
    ensures GetEntry(AfterRm(n, name), name).Some? <==> AfterRm(n, name) == n && GetEntry(n, name).Some?
    ensures other != name ==> GetEntry(AfterRm(n, name), other) == GetEntry(n, other)
    ensures other != name ==> GetEntry(AfterRmdir(n, name), other) == GetEntry(n, other)
  {
    if GetEntry(n, name).Some? {
      assert name in n.entries && name !in (n.entries - {name});
    }
  }

  /** The node `write` stores into: the named entry, when there is text to write. */
  function WriteTarget(n: Node, name: Option<string>, text: seq<string>): (r: Option<NodeRef>)
    ensures r.Some? <==> name.Some? && Join(text, " ") != [] && n.Directory? && name.value in n.entries
    ensures r.Some? ==> r.value == n.entries[name.value]
  {
    if name.Some? && Join(text, " ") != [] then GetEntry(n, name.value) else None
  }

  // ---------------------------------------------------------------------------
  // The shell state

  /** `DIR_STACK` together with the filesystem's `ROOT_DIR` and `CURRENT_DIR`. */
  class ShellState {
    const fs: FileSystem
    var dirStack: seq<NodeRef>

    constructor (fs: FileSystem)
      ensures this.fs == fs && dirStack == []
    {
      this.fs := fs;
      dirStack := [];
    }

    /**
     * What the shell keeps true: the stack starts at the root, its top is
     * the current directory, and every node on it is a directory.
     */
    ghost predicate Valid()
      reads this, fs, dirStack
    {
      && |dirStack| >= 1
      && fs.current == Some(dirStack[|dirStack| - 1])
      && fs.root == Some(dirStack[0])
      && forall i | 0 <= i < |dirStack| :: dirStack[i].node.Directory?
    }

    /**
     * The start of `shell_loop`: a root directory is made if there is none,
     * and both the current directory and the stack are reset to it.
     */
    method Start()
      modifies this, fs
      ensures old(fs.root).Some? ==> fs.root == old(fs.root)
      ensures old(fs.root).None? ==> fs.root.Some? && fresh(fs.root.value) && fs.root.value.node == Directory(map[])
      ensures fs.root.Some? && fs.current == fs.root && dirStack == [fs.root.value]
      ensures fs.root.value.node.Directory? ==> Valid()
    {
      if fs.root.None? {
        var root := NewDir();
        fs.root := Some(root);
      }
      fs.current := fs.root;
      dirStack := [fs.root.value];
    }

    /** The nodes a command may change: the current directory and what it holds. */
    function Affected(): set<object>
      reads this, fs, if fs.current.Some? then {fs.current.value} else {}
    {
      if fs.current.Some? then {fs.current.value} + Children(fs.current.value) else {}
    }

    /**
     * `execute_command`. Without a current directory nothing happens;
     * otherwise the parsed command runs against it. `created` is the node
     * `mkdir` or `touch` builds.
     */
    method ExecuteCommand(command: string, w: Writer) returns (ghost created: Option<NodeRef>)
      requires w.Valid()
      modifies this, fs, w.Repr(), Affected()
      ensures w.Valid() && fs.root == old(fs.root)
      ensures old(Valid()) ==> Valid()
      ensures old(fs.current).None? ==> StackKept() && w.View() == old(w.View()) && created.None?
      ensures old(fs.current).Some? ==> Effect(Parse(command), old(fs.current.value), old(Children(fs.current.value)), w, created)
    {
      created := None;
      var parsed := Parse(command);
      if fs.current.None? {
        return;
      }
      var current := fs.current.value;
      match parsed {
        case Clear => ClearCommand(current, w);
        case Mkdir(name) => created := MakeEntry(current, name, Directory(map[]), w);
        case Touch(name) => created := MakeEntry(current, name, File([]), w);
        case Cd(name) => ChangeDirectory(current, name, w);
        case Rm(name) => RemoveFile(current, name, w);
        case Rmdir(name) => RemoveDirectory(current, name, w);
        case Write(name, text) => WriteText(current, name, text, w);
        case Blank => Idle(parsed, current, w);
        case Other(_) => Idle(parsed, current, w);
      }
    }

    /** The directory stack and the current directory are as they were. */
    twostate predicate StackKept()
      reads this, fs
    {
      dirStack == old(dirStack) && fs.current == old(fs.current)
    }

    /** Every node the current directory held, other than itself, is as it was. */
    twostate predicate ChildrenKept(current: NodeRef, children: set<NodeRef>)
      reads children
    {
      forall m | m in children && m != current :: m.node == old(m.node)
    }

    /**
     * What a parsed command did, given the current directory it ran in and
     * the nodes that directory held: only `cd` changes the stack, only
     * `mkdir`, `touch`, `rm` and `rmdir` the current directory, and only
     * `write` a node it holds. The messages the commands print (usage,
     * errors, `help`, `time`, unknown words) are not part of this model,
     * so here only `clear` changes the terminal.
     */
    twostate predicate Effect(c: Command, current: NodeRef, children: set<NodeRef>, w: Writer, new created: Option<NodeRef>)
      requires w.Valid() && old(w.Valid())
      requires children == old(Children(current))
      reads this, fs, w, w.grid, w.echo, w.echo.buf, w.up, w.down, current, children, if created.Some? then {created.value} else {}
    {
      match c
      case Clear =>
        && w.View() == Terminal.ClearScreen(old(w.View()))
        && StackKept() && current.node == old(current.node) && ChildrenKept(current, children) && created.None?
      case Mkdir(name) =>
        && w.View() == old(w.View()) && StackKept() && ChildrenKept(current, children)
        && Created(name, Directory(map[]), current, created)
      case Touch(name) =>
        && w.View() == old(w.View()) && StackKept() && ChildrenKept(current, children)
        && Created(name, File([]), current, created)
      case Cd(name) =>
        && w.View() == old(w.View())
        && dirStack == old(CdStack(dirStack, current, name))
        && (dirStack == old(dirStack) ==> fs.current == old(fs.current))
        && (dirStack != old(dirStack) ==> |dirStack| >= 1 && fs.current == Some(dirStack[|dirStack| - 1]))
        && current.node == old(current.node) && ChildrenKept(current, children) && created.None?
      case Rm(name) =>
        && w.View() == old(w.View()) && StackKept() && ChildrenKept(current, children) && created.None?
        && current.node == if name.Some? then old(AfterRm(current.node, name.value)) else old(current.node)
      case Rmdir(name) =>
        && w.View() == old(w.View()) && StackKept() && ChildrenKept(current, children) && created.None?
        && current.node == if name.Some? then old(AfterRmdir(current.node, name.value)) else old(current.node)
      case Write(name, text) =>
        && w.View() == old(w.View()) && StackKept() && created.None?
        && Written(current, children, name, text)
      case _ =>
        && w.View() == old(w.View())
        && StackKept() && current.node == old(current.node) && ChildrenKept(current, children) && created.None?
    }

    /** The effect of `mkdir` or `touch`: with a name, a fresh node added under it (if the name is free). */
    twostate predicate Created(name: Option<string>, kind: Node, current: NodeRef, new created: Option<NodeRef>)
      reads current, if created.Some? then {created.value} else {}
    {
      && (name.None? ==> created.None? && current.node == old(current.node))
      && (name.Some? ==>
            created.Some? && fresh(created.value) && created.value.node == kind
            && current.node == WithEntry(old(current.node), name.value, created.value).0)
    }

    /**
     * The effect of `write`: with text to write, the named node's content
     * becomes the UTF-8 bytes of the text (a directory is left as it is);
     * no other node changes.
     */
    twostate predicate Written(current: NodeRef, children: set<NodeRef>, name: Option<string>, text: seq<string>)
      requires children == old(Children(current))
      reads current, children
    {
      var target := WriteTarget(old(current.node), name, text);
      && (target.Some? ==> target.value.node == WithContent(old(target.value.node), Utf8.Encode(Join(text, " "))).0)
      && (forall m | m in children && Some(m) != target :: m.node == old(m.node))
      && (current !in children ==> current.node == old(current.node))
    }

    /** The `clear` arm. */
    method ClearCommand(current: NodeRef, w: Writer)
      requires w.Valid()
      modifies w.Repr()
      ensures w.Valid() && Effect(Clear, current, old(Children(current)), w, None)
      ensures fs.root == old(fs.root) && (old(Valid()) ==> Valid())
    {
      w.ClearScreen();
    }

    /** The arms that leave the filesystem and the stack as they are; what they print is not modelled. */
    method Idle(c: Command, current: NodeRef, w: Writer)
      requires c.Blank? || c.Other?
      requires w.Valid()
      ensures Effect(c, current, old(Children(current)), w, None)
      ensures w.Valid() && fs.root == old(fs.root) && (old(Valid()) ==> Valid())
    {
    }

    /** `mkdir` and `touch`: a new node of the given kind, added under the name. */
    method MakeEntry(current: NodeRef, name: Option<string>, kind: Node, w: Writer) returns (created: Option<NodeRef>)
      requires kind == Directory(map[]) || kind == File([])
      requires w.Valid()
      modifies current
      ensures kind.Directory? ==> Effect(Mkdir(name), current, old(Children(current)), w, created)
      ensures kind.File? ==> Effect(Touch(name), current, old(Children(current)), w, created)
      ensures w.Valid() && fs.root == old(fs.root)
      ensures old(Valid()) ==> Valid()
    {
      created := None;
      if name.Some? {
        var node := new NodeRef(kind);
        var _ := current.AddEntry(name.value, node);
        created := Some(node);
      }
    }

    /** The `cd` arm. */
    method ChangeDirectory(current: NodeRef, name: Option<string>, w: Writer)
      requires fs.current == Some(current) && w.Valid()
      modifies this, fs
      ensures fs.root == old(fs.root)
      ensures Effect(Cd(name), current, old(Children(current)), w, None)
      ensures w.Valid()
      ensures old(Valid()) ==> Valid()
    {
      if name.Some? {
        var arg := name.value;
        if arg == ".." {
          if |dirStack| > 1 {
            dirStack := dirStack[..|dirStack| - 1];
            fs.current := Some(dirStack[|dirStack| - 1]);
          }
        } else {
          match GetEntry(current.node, arg) {
            case Some(node) =>
              if node.node.Directory? {
                dirStack := dirStack + [node];
                fs.current := Some(node);
              }
            case None =>
          }
        }
      }
    }

    /** The `rm` arm. */
    method RemoveFile(current: NodeRef, name: Option<string>, w: Writer)
      requires w.Valid()
      modifies current
      ensures Effect(Rm(name), current, old(Children(current)), w, None)
      ensures w.Valid() && fs.root == old(fs.root)
      ensures old(Valid()) ==> Valid()
    {
      if name.Some? {
        match GetEntry(current.node, name.value) {
          case Some(node) =>
            if node.node.File? {
              var _ := current.RemoveEntry(name.value);
            }
          case None =>
        }
      }
    }

    /** The `rmdir` arm. */
    method RemoveDirectory(current: NodeRef, name: Option<string>, w: Writer)
      requires w.Valid()
      modifies current
      ensures Effect(Rmdir(name), current, old(Children(current)), w, None)
      ensures w.Valid() && fs.root == old(fs.root)
      ensures old(Valid()) ==> Valid()
    {
      if name.Some? {
        match GetEntry(current.node, name.value) {
          case Some(node) =>
            if node.node.Directory? && node.node.entries == map[] {
              var _ := current.RemoveEntry(name.value);
            }
          case None =>
        }
      }
    }

    /** The `write` arm: the words after the name, joined by spaces, as UTF-8. */
    method WriteText(current: NodeRef, name: Option<string>, text: seq<string>, w: Writer)
      requires w.Valid()
      modifies Children(current)
      ensures Effect(Write(name, text), current, old(Children(current)), w, None)
      ensures w.Valid() && fs.root == old(fs.root)
      ensures old(Valid()) ==> Valid()
    {
      if name.Some? {
        var data := Join(text, " ");
        if data == [] {
          return;
        }
        match GetEntry(current.node, name.value) {
          case Some(node) =>
            var _ := node.WriteFile(Utf8.Encode(data));
          case None =>
        }
      }
    }
  }

  // ---------------------------------------------------------------------------
  // The history cursor of shell_loop

  /** `counter` and `max_history`: the position in, and the size of, the command history. */
  class HistoryCursor {
    var counter: nat
    var maxHistory: nat

    constructor ()
      ensures counter == 0 && maxHistory == 0 && Valid()
    {
      counter := 0;
      maxHistory := 0;
    }

    ghost predicate Valid()
      reads this
    {
      counter <= maxHistory <= HistoryCapacity
    }

    /** Enter: below capacity the history grows by one and the cursor moves past its end. */
    method Enter()
      modifies this
      ensures old(maxHistory) < HistoryCapacity ==> maxHistory == old(maxHistory) + 1 && counter == maxHistory
      ensures old(maxHistory) >= HistoryCapacity ==> maxHistory == old(maxHistory) && counter == old(counter)
      ensures old(Valid()) ==> Valid()
    {
      if maxHistory < HistoryCapacity {
        maxHistory := maxHistory + 1;
        counter := maxHistory;
      }
    }

    /** Up: the cursor moves one entry back, stopping at the first. */
    method Up()
      modifies this
      ensures counter == if old(counter) > 0 then old(counter) - 1 else 0
      ensures maxHistory == old(maxHistory)
      ensures old(Valid()) ==> Valid()
    {
      if counter > 0 {
        counter := counter - 1;
      }
    }

    /** Down: the cursor moves one entry forward, stopping at the end of the history. */
    method Down()
      modifies this
      ensures counter == if old(counter) < old(maxHistory) then old(counter) + 1 else old(counter)
      ensures maxHistory == old(maxHistory)
      ensures old(Valid()) ==> Valid()
    {
      if counter < maxHistory {
        counter := counter + 1;
      }
    }
  }
}
