/**
 The directory mirror (`create_mod_link`): a downloaded mod is republished
 under the server directory as a tree of directories with lower-cased names
 whose files are links back to the original download.

 The destination is described by the tree it ends up holding. Its previous
 content, if any, is an argument: a directory there is removed first, while
 anything else makes the directory creation fail.
 */
module Mirror {
  import opened Wrappers
  import opened Text
  import opened FileTree
  import opened Seqs

  /** What the mirror creates: directories, and links whose target is a source path. */
  datatype LinkTree = Link(target: Path) | LinkDir(entries: seq<LinkEntry>)

  datatype LinkEntry = LinkEntry(name: Name, tree: LinkTree)

  /** The two filesystem errors the routine can raise. */
  datatype FsError =
    | FileExists     // creating a directory or link where a non-directory (or, for a link, anything) already is
    | NotADirectory  // listing a source that is a file

  ghost predicate UniqueNames(es: seq<LinkEntry>) {
    forall i, j :: 0 <= i < j < |es| ==> es[i].name != es[j].name
  }

  /** The entry of a directory listing with the given name, if there is one. */
  function Find(es: seq<LinkEntry>, name: Name): (r: Option<LinkTree>)
    ensures r.None? <==> forall i :: 0 <= i < |es| ==> es[i].name != name
    ensures r.Some? ==> LinkEntry(name, r.value) in es
  {
    if es == [] then None
    else if es[0].name == name then Some(es[0].tree)
    else Find(es[1..], name)
  }

  /** The listing with the entry of the given name removed (`shutil.rmtree` of that entry). */
  function Without(es: seq<LinkEntry>, name: Name): (r: seq<LinkEntry>)
    ensures forall e :: e in r <==> e in es && e.name != name
    ensures UniqueNames(es) ==> UniqueNames(r)
    ensures (forall i :: 0 <= i < |es| ==> es[i].name != name) ==> r == es
  {
    if es == [] then []
    else if es[0].name == name then Without(es[1..], name)
    else [es[0]] + Without(es[1..], name)
  }

  /**
   `create_mod_link(src, dst)`, where `p` is the path of `src` and `existing`
   what `dst` held before. On success the result is the directory now at `dst`.
   */
  function CreateModLink(src: Node, p: Path, existing: Option<LinkTree>): (r: Result<LinkTree, FsError>)
    ensures r.Ok? ==> src.Dir? && r.value.LinkDir?
    ensures existing.Some? && existing.value.Link? ==> r == Err(FileExists)
    ensures src.File? ==> r.Err?
    decreases src, 1, 0
  {
    if existing.Some? && existing.value.Link? then Err(FileExists)
    else if src.File? then Err(NotADirectory)
    else
      match Populate(src, p, 0, [])
      case Ok(es) => Ok(LinkDir(es))
      case Err(e) => Err(e)
  }

  /**
   The loop over the entries of `src` from index `i` on, `acc` being what the
   destination directory already holds. A directory is mirrored recursively under its
   lower-cased name, replacing a directory of that name created earlier in the loop;
   a file becomes a link to its source path, and fails if the name is taken.
   */
  function Populate(src: Node, p: Path, i: nat, acc: seq<LinkEntry>): (r: Result<seq<LinkEntry>, FsError>)
    requires src.Dir? && i <= |src.entries|
    requires UniqueNames(acc)
    ensures r.Ok? ==> UniqueNames(r.value)
    decreases src, 0, |src.entries| - i
  {
    if i == |src.entries| then Ok(acc)
    else
      var e := src.entries[i];
      var name := Lower(e.name);
      var f := p + [e.name];
      if e.node.Dir? then
        match CreateModLink(e.node, f, Find(acc, name))
        case Err(err) => Err(err)
        case Ok(sub) => Populate(src, p, i + 1, Without(acc, name) + [LinkEntry(name, sub)])
      else if Find(acc, name).Some? then Err(FileExists)
      else Populate(src, p, i + 1, acc + [LinkEntry(name, Link(f))])
  }

  // ---------------------------------------------------------------------------
  // The intended mirror

  /** No two entries of a directory, at any depth, have names equal after lower-casing. */
  ghost predicate NoCollisions(n: Node)
    decreases n
  {
    n.Dir? ==>
      && (forall i, j :: 0 <= i < j < |n.entries| ==> Lower(n.entries[i].name) != Lower(n.entries[j].name))
      && (forall i :: 0 <= i < |n.entries| ==> NoCollisions(n.entries[i].node))
  }

  /**
   The mirror of a tree at path `p`: one entry per source entry, in listing order,
   named by the lower-cased source name; directories become directories and files
   become links to their source path.
   */
  function Mirrored(n: Node, p: Path): (t: LinkTree)
    ensures n.File? <==> t.Link?
    decreases n
  {
    match n
    case File => Link(p)
    case Dir(es) =>
      LinkDir(seq(|es|, i requires 0 <= i < |es| =>
        LinkEntry(Lower(es[i].name), Mirrored(es[i].node, p + [es[i].name]))))
  }

  /** Without lower-case collisions the routine succeeds and builds exactly the mirror. */
  lemma {:induction false} CreateModLinkMirrors(src: Node, p: Path)
    requires src.Dir? && NoCollisions(src)
    ensures CreateModLink(src, p, None) == Ok(Mirrored(src, p))
    decreases src, 1, 0
  {
    PopulateMirrors(src, p, 0);
    assert Mirrored(src, p).entries[..0] == [];
  }

  lemma {:induction false} PopulateMirrors(src: Node, p: Path, i: nat)
    requires src.Dir? && NoCollisions(src) && i <= |src.entries|
    ensures UniqueNames(Mirrored(src, p).entries[..i])
    ensures Populate(src, p, i, Mirrored(src, p).entries[..i]) == Ok(Mirrored(src, p).entries)
    decreases src, 0, |src.entries| - i
  {
    var es := src.entries;
    var m := Mirrored(src, p).entries;
    var acc := m[..i];
    assert UniqueNames(acc);
    if i == |es| {
      assert acc == m;
    } else {
      var e := es[i];
      var name := Lower(e.name);
      var f := p + [e.name];
      MirroredEntry(src, p, i);
      assert forall j :: 0 <= j < i ==> acc[j].name == Lower(es[j].name) != name;
      assert Find(acc, name).None?;
      assert acc + [m[i]] == m[..i + 1];
      if e.node.Dir? {
        CreateModLinkMirrors(e.node, f);
        assert Without(acc, name) == acc;
      }
      PopulateMirrors(src, p, i + 1);
    }
  }

  /** A directory or nothing at the destination makes no difference to the outcome. */
  lemma CreateModLinkDiscardsPrevious(src: Node, p: Path, existing: Option<LinkTree>)
    requires existing.None? || existing.value.LinkDir?
    ensures CreateModLink(src, p, existing) == CreateModLink(src, p, None)
  {
  }

  /**
   Running the mirror again, for instance after the mod lost files, leaves nothing
   from the first run behind.
   */
  lemma RerunLeavesNothingStale(first: Node, second: Node, p: Path, q: Path)
    requires CreateModLink(first, q, None).Ok?
    ensures CreateModLink(second, p, Some(CreateModLink(first, q, None).value)) == CreateModLink(second, p, None)
  {
    CreateModLinkDiscardsPrevious(second, p, Some(CreateModLink(first, q, None).value));
  }

  // ---------------------------------------------------------------------------
  // Shape of the mirror

  ghost predicate LowerNames(t: LinkTree)
    decreases t
  {
    t.LinkDir? ==>
      forall i :: 0 <= i < |t.entries| ==> NoUpper(t.entries[i].name) && LowerNames(t.entries[i].tree)
  }

  lemma {:induction false} MirroredNamesAreLower(n: Node, p: Path)
    ensures LowerNames(Mirrored(n, p))
    decreases n
  {
    if n.Dir? {
      var es := n.entries;
      forall i | 0 <= i < |es|
        ensures LowerNames(Mirrored(n, p).entries[i].tree)
      {
        MirroredNamesAreLower(es[i].node, p + [es[i].name]);
      }
    }
  }

  /** Path `q` in the mirror `t` is a link to `target`. */
  ghost predicate LinkAt(t: LinkTree, q: Path, target: Path)
    decreases |q|
  {
    && t.LinkDir?
    && |q| > 0
    && exists i :: 0 <= i < |t.entries| && t.entries[i].name == q[0] &&
         (if |q| == 1 then t.entries[i].tree == Link(target) else LinkAt(t.entries[i].tree, q[1..], target))
  }

  function LowerPath(rel: Path): (r: Path)
    ensures |r| == |rel|
  {
    seq(|rel|, i requires 0 <= i < |rel| => Lower(rel[i]))
  }

  /** Every source file appears in the mirror, at its lower-cased path, as a link to its source path. */
  lemma {:induction false} MirrorLinksEveryFile(n: Node, p: Path, rel: Path)
    requires FileAt(n, rel)
    ensures LinkAt(Mirrored(n, p), LowerPath(rel), p + rel)
    decreases |rel|
  {
    var es := n.entries;
    var t := Mirrored(n, p);
    var q := LowerPath(rel);
    var i :| 0 <= i < |es| && es[i].name == rel[0] &&
      (if |rel| == 1 then es[i].node.File? else FileAt(es[i].node, rel[1..]));
    MirroredEntry(n, p, i);
    var f := p + [rel[0]];
    assert t.entries[i].name == q[0];
    if |rel| == 1 {
      assert rel == [rel[0]];
      assert t.entries[i].tree == Link(p + rel);
    } else {
      MirrorLinksEveryFile(es[i].node, f, rel[1..]);
      assert q[1..] == LowerPath(rel[1..]);
      assert f + rel[1..] == p + rel;
      assert LinkAt(t.entries[i].tree, q[1..], p + rel);
    }
  }

  /** Every link in the mirror comes from a source file and points at its source path. */
  lemma {:induction false} MirrorLinksOnlyFiles(n: Node, p: Path, q: Path, target: Path)
    requires LinkAt(Mirrored(n, p), q, target)
    ensures exists rel :: FileAt(n, rel) && LowerPath(rel) == q && target == p + rel
    decreases |q|
  {
    var t := Mirrored(n, p);
    var i :| 0 <= i < |t.entries| && t.entries[i].name == q[0] &&
      (if |q| == 1 then t.entries[i].tree == Link(target) else LinkAt(t.entries[i].tree, q[1..], target));
    MirroredEntry(n, p, i);
    var f := p + [n.entries[i].name];
    if |q| == 1 {
      LinkedFileHere(n, p, i, q, target);
    } else {
      MirrorLinksOnlyFiles(n.entries[i].node, f, q[1..], target);
      var rel' :| FileAt(n.entries[i].node, rel') && LowerPath(rel') == q[1..] && target == f + rel';
      LinkedFileBelow(n, p, i, q, rel');
    }
  }

  lemma LinkedFileHere(n: Node, p: Path, i: nat, q: Path, target: Path)
    requires n.Dir? && i < |n.entries| && |q| == 1
    requires Lower(n.entries[i].name) == q[0]
    requires Mirrored(n.entries[i].node, p + [n.entries[i].name]) == Link(target)
    ensures var rel := [n.entries[i].name]; FileAt(n, rel) && LowerPath(rel) == q && target == p + rel
  {
    var rel := [n.entries[i].name];
    assert rel[0] == n.entries[i].name;
  }

  lemma LinkedFileBelow(n: Node, p: Path, i: nat, q: Path, rel': Path)
    requires n.Dir? && i < |n.entries| && |q| > 1
    requires Lower(n.entries[i].name) == q[0]
    requires FileAt(n.entries[i].node, rel') && LowerPath(rel') == q[1..]
    ensures var rel := [n.entries[i].name] + rel';
      FileAt(n, rel) && LowerPath(rel) == q && (p + [n.entries[i].name]) + rel' == p + rel
  {
    var name := n.entries[i].name;
    FileAtEntry(n, i, rel');
    assert LowerPath([name] + rel') == [Lower(name)] + LowerPath(rel');
    assert q == [q[0]] + q[1..];
    AppendAssoc(p, [name], rel');
  }

  /** The entry the mirror builds for the `i`-th entry of a source directory. */
  lemma MirroredEntry(n: Node, p: Path, i: nat)
    requires n.Dir? && i < |n.entries|
    ensures Mirrored(n, p).LinkDir? && |Mirrored(n, p).entries| == |n.entries|
    ensures Mirrored(n, p).entries[i] ==
      LinkEntry(Lower(n.entries[i].name), Mirrored(n.entries[i].node, p + [n.entries[i].name]))
  {
  }

  // ---------------------------------------------------------------------------
  // Collisions

  /**
   A later directory whose name lower-cases like an earlier one replaces it
   wholesale: the earlier directory's content is gone.
   */
  lemma LaterDirectoryReplacesEarlier()
    ensures CreateModLink(Dir([Entry("A", Dir([Entry("x", File)])), Entry("a", Dir([]))]), ["m"], None)
         == Ok(LinkDir([LinkEntry("a", LinkDir([]))]))
  {
    var inner := Dir([Entry("x", File)]);
    var src := Dir([Entry("A", inner), Entry("a", Dir([]))]);
    assert Lower("A") == "a";
    assert Lower("a") == "a";
    assert Lower("x") == "x";
    var first := LinkDir([LinkEntry("x", Link(["m", "A", "x"]))]);
    assert CreateModLink(inner, ["m", "A"], None) == Ok(first) by {
      assert Populate(inner, ["m", "A"], 1, [LinkEntry("x", Link(["m", "A", "x"]))])
          == Ok([LinkEntry("x", Link(["m", "A", "x"]))]);
      assert ["m", "A"] + ["x"] == ["m", "A", "x"];
      assert [] + [LinkEntry("x", Link(["m", "A", "x"]))] == [LinkEntry("x", Link(["m", "A", "x"]))];
      assert Populate(inner, ["m", "A"], 0, []) == Ok([LinkEntry("x", Link(["m", "A", "x"]))]);
    }
    var acc := [LinkEntry("a", first)];
    assert ["m"] + ["A"] == ["m", "A"];
    assert Populate(src, ["m"], 0, []) == Populate(src, ["m"], 1, acc);
    assert Find(acc, "a") == Some(first);
    assert ["m"] + ["a"] == ["m", "a"];
    assert Populate(Dir([]), ["m", "a"], 0, []) == Ok([]);
    assert CreateModLink(Dir([]), ["m", "a"], Some(first)) == Ok(LinkDir([]));
    assert Without(acc, "a") == [];
    assert [] + [LinkEntry("a", LinkDir([]))] == [LinkEntry("a", LinkDir([]))];
    assert Populate(src, ["m"], 1, acc) == Populate(src, ["m"], 2, [LinkEntry("a", LinkDir([]))]);
  }

  /**
   Any other lower-case collision is an error: a file after an entry of the same
   name, or a directory after a file of the same name.
   */
  lemma OtherCollisionsFail()
    ensures CreateModLink(Dir([Entry("A", File), Entry("a", File)]), ["m"], None) == Err(FileExists)
    ensures CreateModLink(Dir([Entry("A", File), Entry("a", Dir([]))]), ["m"], None) == Err(FileExists)
  {
    assert Lower("A") == "a";
    assert Lower("a") == "a";
    var acc := [LinkEntry("a", Link(["m", "A"]))];
    assert ["m"] + ["A"] == ["m", "A"];
    var s1 := Dir([Entry("A", File), Entry("a", File)]);
    var s2 := Dir([Entry("A", File), Entry("a", Dir([]))]);
    assert Populate(s1, ["m"], 0, []) == Populate(s1, ["m"], 1, acc);
    assert Populate(s2, ["m"], 0, []) == Populate(s2, ["m"], 1, acc);
    assert Find(acc, "a") == Some(Link(["m", "A"]));
  }
}
