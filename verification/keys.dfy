/**
 Signature keys (`find_bikeys`, `create_key_links`): every `.bikey` file of a
 mod is linked into the server's key directory under its lower-cased file name,
 unless that name is already taken there.
 */
module Keys {
  import opened Text
  import opened Seqs
  import opened FileTree

  const KeyExtension: string := ".bikey"

  /** File names are matched case-insensitively against the key extension. */
  predicate IsKeyName(name: Name) {
    EndsWith(Lower(name), KeyExtension)
  }

  lemma KeyNameIgnoresCase(name: Name)
    ensures IsKeyName(name) <==> IsKeyName(Lower(name))
  {
    LowerIdempotent(name);
  }

  /** `rel` names a key file inside `n`. */
  ghost predicate KeyFileAt(n: Node, rel: Path) {
    FileAt(n, rel) && IsKeyName(rel[|rel| - 1])
  }

  /**
   `find_bikeys(p)` for the tree `n` found at `p`. The walk is top-down: the key
   files directly in a directory, in listing order, then each sub-directory in turn.
   A path that is not a directory yields nothing.
   */
  function FindBikeys(n: Node, p: Path): seq<Path>
    decreases n, 1, 0
  {
    if n.File? then [] else KeysHere(n, p, 0) + KeysBelow(n, p, 0)
  }

  /** The key files among the entries of `n` from index `i` on. */
  function KeysHere(n: Node, p: Path, i: nat): seq<Path>
    requires n.Dir? && i <= |n.entries|
    decreases n, 0, |n.entries| - i
  {
    if i == |n.entries| then []
    else
      var e := n.entries[i];
      (if e.node.File? && IsKeyName(e.name) then [p + [e.name]] else []) + KeysHere(n, p, i + 1)
  }

  /** The walks of the sub-directories among the entries of `n` from index `i` on. */
  function KeysBelow(n: Node, p: Path, i: nat): seq<Path>
    requires n.Dir? && i <= |n.entries|
    decreases n, 0, |n.entries| - i
  {
    if i == |n.entries| then []
    else
      var e := n.entries[i];
      (if e.node.Dir? then FindBikeys(e.node, p + [e.name]) else []) + KeysBelow(n, p, i + 1)
  }

  // ---------------------------------------------------------------------------
  // The walk finds exactly the key files

  lemma {:induction false} FindBikeysSound(n: Node, p: Path, q: Path)
    requires q in FindBikeys(n, p)
    ensures |q| > |p| && q[..|p|] == p && KeyFileAt(n, q[|p|..])
    decreases n, 1, 0
  {
    if q in KeysHere(n, p, 0) {
      KeysHereSound(n, p, 0, q);
    } else {
      KeysBelowSound(n, p, 0, q);
    }
  }

  lemma {:induction false} KeysHereSound(n: Node, p: Path, i: nat, q: Path)
    requires n.Dir? && i <= |n.entries|
    requires q in KeysHere(n, p, i)
    ensures |q| > |p| && q[..|p|] == p && KeyFileAt(n, q[|p|..])
    decreases |n.entries| - i
  {
    var e := n.entries[i];
    if e.node.File? && IsKeyName(e.name) && q == p + [e.name] {
      assert q[|p|..] == [e.name];
      assert FileAt(n, [e.name]);
    } else {
      KeysHereSound(n, p, i + 1, q);
    }
  }

  lemma {:induction false} KeysBelowSound(n: Node, p: Path, i: nat, q: Path)
    requires n.Dir? && i <= |n.entries|
    requires q in KeysBelow(n, p, i)
    ensures |q| > |p| && q[..|p|] == p && KeyFileAt(n, q[|p|..])
    decreases n, 0, |n.entries| - i
  {
    var e := n.entries[i];
    if e.node.Dir? && q in FindBikeys(e.node, p + [e.name]) {
      var f := p + [e.name];
      FindBikeysSound(e.node, f, q);
      var below := q[|f|..];
      assert q[..|p|] == q[..|f|][..|p|];
      assert q[|p|..] == [e.name] + below;
      FileAtEntry(n, i, below);
    } else {
      KeysBelowSound(n, p, i + 1, q);
    }
  }

  lemma {:induction false} FindBikeysComplete(n: Node, p: Path, rel: Path)
    requires KeyFileAt(n, rel)
    ensures p + rel in FindBikeys(n, p)
    decreases |rel|
  {
    var es := n.entries;
    var j :| 0 <= j < |es| && es[j].name == rel[0] &&
      (if |rel| == 1 then es[j].node.File? else FileAt(es[j].node, rel[1..]));
    if |rel| == 1 {
      assert rel == [es[j].name];
      KeysHereComplete(n, p, 0, j);
    } else {
      var f := p + [rel[0]];
      assert rel[1..][|rel[1..]| - 1] == rel[|rel| - 1];
      FindBikeysComplete(es[j].node, f, rel[1..]);
      assert f + rel[1..] == p + rel by {
        assert rel == [rel[0]] + rel[1..];
      }
      KeysBelowComplete(n, p, 0, j, p + rel);
    }
  }

  lemma {:induction false} KeysHereComplete(n: Node, p: Path, i: nat, j: nat)
    requires n.Dir? && i <= j < |n.entries|
    requires n.entries[j].node.File? && IsKeyName(n.entries[j].name)
    ensures p + [n.entries[j].name] in KeysHere(n, p, i)
    decreases j - i
  {
    if i < j {
      KeysHereComplete(n, p, i + 1, j);
    }
  }

  lemma {:induction false} KeysBelowComplete(n: Node, p: Path, i: nat, j: nat, q: Path)
    requires n.Dir? && i <= j < |n.entries|
    requires n.entries[j].node.Dir? && q in FindBikeys(n.entries[j].node, p + [n.entries[j].name])
    ensures q in KeysBelow(n, p, i)
    decreases j - i
  {
    if i < j {
      KeysBelowComplete(n, p, i + 1, j, q);
    }
  }

  /** A path under `p` is returned exactly when it names a key file of the tree. */
  lemma FindBikeysExact(n: Node, p: Path, rel: Path)
    requires |rel| > 0
    ensures p + rel in FindBikeys(n, p) <==> KeyFileAt(n, rel)
  {
    if p + rel in FindBikeys(n, p) {
      FindBikeysSound(n, p, p + rel);
      assert (p + rel)[|p|..] == rel;
    }
    if KeyFileAt(n, rel) {
      FindBikeysComplete(n, p, rel);
    }
  }

  // ---------------------------------------------------------------------------
  // Linking keys into the key directory

  /** An entry of the key directory: a plain file, or a link to a mod's key. */
  datatype KeyEntry = KeyFile | KeyLink(target: Path)

  type KeyDir = map<Name, KeyEntry>

  /** The name a key is linked under: its lower-cased file name. */
  function KeyLinkName(key: Path): (r: Name)
    ensures NoUpper(r)
  {
    Lower(Basename(key))
  }

  function KeyLinkNames(keys: seq<Path>): (r: seq<Name>)
    ensures |r| == |keys|
    ensures forall i :: 0 <= i < |keys| ==> r[i] == KeyLinkName(keys[i])
  {
    seq(|keys|, i requires 0 <= i < |keys| => KeyLinkName(keys[i]))
  }

  /**
   The names an insert-if-absent loop adds, one name at a time: a name is added
   when it is neither present already nor added earlier.
   */
  function Added<N>(present: set<N>, names: seq<N>): seq<N>
  {
    if names == [] then []
    else
      var a := Added(present, names[..|names| - 1]);
      var x := names[|names| - 1];
      if x in present || x in a then a else a + [x]
  }

  /** The names added are the distinct names, first occurrences first, that were not present. */
  lemma {:induction false} AddedDistinctAbsent<N>(present: set<N>, names: seq<N>)
    ensures Added(present, names) == Absent(Dedup(names), present)
  {
    if names != [] {
      var init := names[..|names| - 1];
      var x := names[|names| - 1];
      var d := Dedup(init);
      AddedDistinctAbsent(present, init);
      assert names == init + [x];
      DedupAppendOne(init, x);
      DedupMembers(init);
      AbsentAppend(d, [x], present);
      AbsentMembers(d, present);
    }
  }

  lemma AddedStep<N>(present: set<N>, names: seq<N>, i: nat)
    requires i < |names|
    ensures var a := Added(present, names[..i]);
            Added(present, names[..i + 1]) == if names[i] in present || names[i] in a then a else a + [names[i]]
  {
    assert names[..i + 1][..i] == names[..i];
  }

  lemma {:induction false} AddedMembers<N>(present: set<N>, names: seq<N>)
    ensures forall x :: x in Added(present, names) <==> x in names && x !in present
  {
    if names != [] {
      var init := names[..|names| - 1];
      AddedMembers(present, init);
      assert names == init + [names[|names| - 1]];
    }
  }

  /**
   The directory after inserting each name with its value unless the name is
   already a key, one name at a time.
   */
  function Inserted<N, V>(dir: map<N, V>, names: seq<N>, values: seq<V>): map<N, V>
    requires |values| == |names|
  {
    if names == [] then dir
    else
      var m := Inserted(dir, names[..|names| - 1], values[..|names| - 1]);
      var x := names[|names| - 1];
      if x in m then m else m[x := values[|names| - 1]]
  }

  lemma InsertedStep<N, V>(dir: map<N, V>, names: seq<N>, values: seq<V>, i: nat)
    requires |values| == |names| && i < |names|
    ensures var m := Inserted(dir, names[..i], values[..i]);
            Inserted(dir, names[..i + 1], values[..i + 1]) == if names[i] in m then m else m[names[i] := values[i]]
  {
    assert names[..i + 1][..i] == names[..i] && values[..i + 1][..i] == values[..i];
  }

  lemma {:induction false} InsertedKeys<N, V>(dir: map<N, V>, names: seq<N>, values: seq<V>)
    requires |values| == |names|
    ensures forall n :: n in Inserted(dir, names, values) <==> n in dir || n in Added(dir.Keys, names)
  {
    if names != [] {
      var k := |names| - 1;
      InsertedKeys(dir, names[..k], values[..k]);
    }
  }

  lemma {:induction false} InsertedKeeps<N, V>(dir: map<N, V>, names: seq<N>, values: seq<V>, n: N)
    requires |values| == |names|
    requires n in dir
    ensures n in Inserted(dir, names, values) && Inserted(dir, names, values)[n] == dir[n]
  {
    if names != [] {
      var k := |names| - 1;
      InsertedKeeps(dir, names[..k], values[..k], n);
    }
  }

  /** A name that is new and occurs for the first time at `j` gets the value at `j`. */
  lemma {:induction false} InsertedFirst<N, V>(dir: map<N, V>, names: seq<N>, values: seq<V>, j: nat)
    requires |values| == |names| && j < |names|
    requires names[j] !in dir && names[j] !in names[..j]
    ensures names[j] in Inserted(dir, names, values)
    ensures Inserted(dir, names, values)[names[j]] == values[j]
  {
    var k := |names| - 1;
    var init := names[..k];
    InsertedKeys(dir, init, values[..k]);
    AddedMembers(dir.Keys, init);
    if j < k {
      assert init[j] == names[j] && init[..j] == names[..j];
      InsertedFirst(dir, init, values[..k], j);
    } else {
      assert init == names[..j];
    }
  }

  /** What inserting new names achieves: nothing present is replaced, and every new name gets its first value. */
  lemma InsertedSpec<N, V>(dir: map<N, V>, names: seq<N>, values: seq<V>)
    requires |values| == |names|
    ensures var after := Inserted(dir, names, values);
      && Added(dir.Keys, names) == Absent(Dedup(names), dir.Keys)
      && (forall n :: n in after <==> n in dir || n in Added(dir.Keys, names))
      && (forall n :: n in dir ==> after[n] == dir[n])
      && (forall j :: 0 <= j < |names| ==> names[j] in after)
      && (forall j {:trigger values[j]} :: (0 <= j < |names| && names[j] !in dir && names[j] !in names[..j]) ==>
            after[names[j]] == values[j])
  {
    var after := Inserted(dir, names, values);
    InsertedKeys(dir, names, values);
    AddedMembers(dir.Keys, names);
    AddedDistinctAbsent(dir.Keys, names);
    forall n | n in dir
      ensures after[n] == dir[n]
    {
      InsertedKeeps(dir, names, values, n);
    }
    forall j | 0 <= j < |names| && names[j] !in dir && names[j] !in names[..j]
      ensures after[names[j]] == values[j]
    {
      InsertedFirst(dir, names, values, j);
    }
  }

  /**
   Inserts each name with its value unless the name is already a key: existing
   entries are never replaced, and the first of several equal names wins.
   Returns the names added, in order.
   */
  method InsertNew<N(==), V>(dir: map<N, V>, names: seq<N>, values: seq<V>) returns (added: seq<N>, after: map<N, V>)
    requires |values| == |names|
    ensures added == Absent(Dedup(names), dir.Keys)
    ensures forall n :: n in after <==> n in dir || n in added
    ensures forall n :: n in dir ==> after[n] == dir[n]
    ensures forall j :: 0 <= j < |names| ==> names[j] in after
    ensures forall j {:trigger values[j]} :: (0 <= j < |names| && names[j] !in dir && names[j] !in names[..j]) ==>
              after[names[j]] == values[j]
  {
    added := [];
    after := dir;
    var i := 0;
    while i < |names|
      invariant 0 <= i <= |names|
      invariant added == Added(dir.Keys, names[..i])
      invariant after == Inserted(dir, names[..i], values[..i])
    {
      var name := names[i];
      AddedStep(dir.Keys, names, i);
      InsertedStep(dir, names, values, i);
      InsertedKeys(dir, names[..i], values[..i]);
      if name !in after {
        after := after[name := values[i]];
        added := added + [name];
      }
      i := i + 1;
    }
    assert names[..|names|] == names && values[..|names|] == values;
    InsertedSpec(dir, names, values);
  }

  function KeyLinks(keys: seq<Path>): (r: seq<KeyEntry>)
    ensures |r| == |keys|
    ensures forall i :: 0 <= i < |keys| ==> r[i] == KeyLink(keys[i])
  {
    seq(|keys|, i requires 0 <= i < |keys| => KeyLink(keys[i]))
  }

  /**
   The loop of `create_key_links` over the keys found: a key is linked under its
   lower-cased file name when nothing of that name is in the key directory yet,
   and the names linked are returned.
   */
  method LinkKeys(keyDir: KeyDir, keys: seq<Path>) returns (linked: seq<Name>, after: KeyDir)
    ensures linked == Absent(Dedup(KeyLinkNames(keys)), keyDir.Keys)
    ensures NoDuplicates(linked)
    ensures forall n :: n in linked ==> n in KeyLinkNames(keys) && n !in keyDir && NoUpper(n)
    ensures forall n :: n in after <==> n in keyDir || n in linked
    ensures forall n :: n in keyDir ==> after[n] == keyDir[n]
    ensures forall n :: n in KeyLinkNames(keys) ==> n in after
    ensures forall j {:trigger KeyLink(keys[j])} :: (0 <= j < |keys| && KeyLinkName(keys[j]) !in keyDir &&
                         KeyLinkName(keys[j]) !in KeyLinkNames(keys)[..j]) ==>
              after[KeyLinkName(keys[j])] == KeyLink(keys[j])
  {
    var names := KeyLinkNames(keys);
    linked, after := InsertNew(keyDir, names, KeyLinks(keys));
    DedupNoDuplicates(names);
    AbsentNoDuplicates(Dedup(names), keyDir.Keys);
    AbsentMembers(Dedup(names), keyDir.Keys);
    DedupMembers(names);
  }

  /** `n` is the lower-cased file name of some key file of `mod`. */
  ghost predicate KeyNameOf(mod: Node, n: Name) {
    exists rel :: KeyFileAt(mod, rel) && n == Lower(rel[|rel| - 1])
  }

  lemma FoundKeyName(mod: Node, p: Path, q: Path)
    requires q in FindBikeys(mod, p)
    ensures KeyNameOf(mod, KeyLinkName(q))
  {
    FindBikeysSound(mod, p, q);
    var rel := q[|p|..];
    assert rel[|rel| - 1] == q[|q| - 1];
    assert KeyFileAt(mod, rel) && KeyLinkName(q) == Lower(rel[|rel| - 1]);
  }

  lemma KeyNameFound(mod: Node, p: Path, rel: Path)
    requires KeyFileAt(mod, rel)
    ensures Lower(rel[|rel| - 1]) in KeyLinkNames(FindBikeys(mod, p))
  {
    var keys := FindBikeys(mod, p);
    FindBikeysComplete(mod, p, rel);
    var j :| 0 <= j < |keys| && keys[j] == p + rel;
    assert KeyLinkNames(keys)[j] == Lower(rel[|rel| - 1]);
  }

  /**
   `create_key_links(p)` for the mod tree `mod` at `p`: the keys found by the walk,
   linked into the key directory. Afterwards every key file's lower-cased name is
   in the directory; the names added are exactly the new ones, each once and
   linked to the first key found under it; nothing that was there is replaced.
   */
  method CreateKeyLinks(keyDir: KeyDir, mod: Node, p: Path) returns (linked: seq<Name>, after: KeyDir)
    ensures linked == Absent(Dedup(KeyLinkNames(FindBikeys(mod, p))), keyDir.Keys)
    ensures NoDuplicates(linked)
    ensures forall n :: n in linked ==> n !in keyDir && KeyNameOf(mod, n)
    ensures forall rel :: KeyFileAt(mod, rel) ==> Lower(rel[|rel| - 1]) in after
    ensures forall n :: n in after <==> n in keyDir || n in linked
    ensures forall n :: n in keyDir ==> after[n] == keyDir[n]
    ensures forall n :: n in KeyLinkNames(FindBikeys(mod, p)) ==> n in after
    ensures var keys := FindBikeys(mod, p);
      forall j {:trigger KeyLink(keys[j])} :: (0 <= j < |keys| && KeyLinkName(keys[j]) !in keyDir &&
                  KeyLinkName(keys[j]) !in KeyLinkNames(keys)[..j]) ==>
        after[KeyLinkName(keys[j])] == KeyLink(keys[j])
  {
    linked, after := LinkKeys(keyDir, FindBikeys(mod, p));
    FoundKeyNames(mod, p, linked);
    KeyNamesFound(mod, p, after.Keys);
  }

  lemma FoundKeyNames(mod: Node, p: Path, names: seq<Name>)
    requires forall n :: n in names ==> n in KeyLinkNames(FindBikeys(mod, p))
    ensures forall n :: n in names ==> KeyNameOf(mod, n)
  {
    var keys := FindBikeys(mod, p);
    forall n | n in names
      ensures KeyNameOf(mod, n)
    {
      var j :| 0 <= j < |keys| && KeyLinkNames(keys)[j] == n;
      FoundKeyName(mod, p, keys[j]);
    }
  }

  lemma KeyNamesFound(mod: Node, p: Path, present: set<Name>)
    requires forall n :: n in KeyLinkNames(FindBikeys(mod, p)) ==> n in present
    ensures forall rel :: KeyFileAt(mod, rel) ==> Lower(rel[|rel| - 1]) in present
  {
    forall rel | KeyFileAt(mod, rel)
      ensures Lower(rel[|rel| - 1]) in present
    {
      KeyNameFound(mod, p, rel);
    }
  }
}
