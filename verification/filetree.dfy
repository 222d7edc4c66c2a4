/**
 A directory tree as the tool sees a downloaded mod: directories listing named
 entries in directory-listing order, and files whose content does not matter.
 A path is the sequence of names joined by the platform separator.
 */
module FileTree {

  type Name = string

  type Path = seq<Name>

  datatype Node = File | Dir(entries: seq<Entry>)

  datatype Entry = Entry(name: Name, node: Node)

  /** `rel` names a file inside `n`, one directory name per step. */
  ghost predicate FileAt(n: Node, rel: Path)
    decreases |rel|
  {
    && n.Dir?
    && |rel| > 0
    && exists i :: 0 <= i < |n.entries| && n.entries[i].name == rel[0] &&
         (if |rel| == 1 then n.entries[i].node.File? else FileAt(n.entries[i].node, rel[1..]))
  }

  /** A file below an entry is a file below the directory holding it. */
  lemma FileAtEntry(n: Node, i: nat, rel: Path)
    requires n.Dir? && i < |n.entries|
    requires FileAt(n.entries[i].node, rel)
    ensures FileAt(n, [n.entries[i].name] + rel)
  {
    var r := [n.entries[i].name] + rel;
    assert r[0] == n.entries[i].name && r[1..] == rel;
  }

  /** The last component of a path (Python's `os.path.basename`); empty for the empty path. */
  function Basename(p: Path): Name {
    if p == [] then "" else p[|p| - 1]
  }
}
