/** A directory tree as one walk sees it; `entries` is the order in which a directory lists them. */
module FileTree {
  import opened Bytes
  import opened Wrappers

  /** A name is `None` when it is not Unicode. */
  datatype Node<N> = File(content: Bytes) | Dir(entries: seq<Entry<N>>) | Link | Special
  datatype Entry<N> = Entry(name: Option<N>, node: Node<N>)

  /** Following the component names of `path` from `root` leads to a regular file with that content. */
  ghost predicate FileAt<N>(root: Node<N>, path: seq<N>, content: Bytes) {
    if path == [] then root == File(content)
    else
      && root.Dir?
      && exists i :: 0 <= i < |root.entries| && Leads(root.entries[i], path, content)
  }

  ghost predicate Leads<N>(entry: Entry<N>, path: seq<N>, content: Bytes)
    requires path != []
  {
    entry.name == Some(path[0]) && FileAt(entry.node, path[1..], content)
  }

  ghost predicate IsFile<N(!new)>(root: Node<N>, path: seq<N>) {
    exists content :: FileAt(root, path, content)
  }

  /** Every directory lists each name once. */
  ghost predicate DistinctNames<N>(root: Node<N>) {
    root.Dir? ==>
      && (forall i, j :: 0 <= i < j < |root.entries| && root.entries[i].name.Some?
            ==> root.entries[i].name != root.entries[j].name)
      && forall i :: 0 <= i < |root.entries| ==> DistinctNames(root.entries[i].node)
  }

  /** With distinct names a path leads to one content only. */
  lemma {:induction false} FileAtUnique<N>(root: Node<N>, path: seq<N>, a: Bytes, b: Bytes)
    requires DistinctNames(root) && FileAt(root, path, a) && FileAt(root, path, b)
    ensures a == b
    decreases root
  {
    if path != [] {
      var i :| 0 <= i < |root.entries| && Leads(root.entries[i], path, a);
      var j :| 0 <= j < |root.entries| && Leads(root.entries[j], path, b);
      assert i == j;
      FileAtUnique(root.entries[i].node, path[1..], a, b);
    }
  }

  /** Opening the regular file at a path. */
  method ReadFile<N(==,!new)>(root: Node<N>, path: seq<N>) returns (content: Option<Bytes>)
    ensures content.Some? ==> FileAt(root, path, content.value)
    ensures content.None? ==> !IsFile(root, path)
    decreases root
  {
    if path == [] { return if root.File? then Some(root.content) else None; }
    if !root.Dir? { return None; }
    for i := 0 to |root.entries|
      invariant forall j, c :: 0 <= j < i ==> !Leads(root.entries[j], path, c)
    {
      if root.entries[i].name == Some(path[0]) {
        content := ReadFile(root.entries[i].node, path[1..]);
        if content.Some? {
          assert Leads(root.entries[i], path, content.value);
          return;
        }
      }
    }
    forall c ensures !FileAt(root, path, c) {
    }
    content := None;
  }
}
