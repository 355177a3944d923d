/** The shortcut tree of the preferences dialog (gui/preferences.c): a forest
    of rows, each holding one '/'-separated segment of an accelerator path,
    the text of the binding column and one segment of the translated path.
    A row is addressed by its position, the list of child indices from the
    top level down (a GtkTreePath). */
module AccelTree {
  import opened Strings
  import opened Accelerators

  /** The binding column: empty on a branch row, the label of a binding, or
      the "press key combination to remap..." prompt. */
  datatype Label = Blank | KeyLabel(binding: Binding) | Prompt

  /** A row: accel-path segment, binding column, translated segment, children. */
  datatype Node = Node(key: string, display: Label, trans: string, children: seq<Node>)

  /** What tree_insert_rec leaves behind: the new forest and the position of
      the leaf it added, if it got as far as adding one. */
  datatype Insertion = Insertion(forest: seq<Node>, at: Option<seq<nat>>)

  // ---------------------------------------------------------------------
  // Positions

  predicate ValidPos(f: seq<Node>, pos: seq<nat>)
    decreases pos
  {
    |pos| > 0 && pos[0] < |f| && (|pos| == 1 || ValidPos(f[pos[0]].children, pos[1..]))
  }

  function NodeAt(f: seq<Node>, pos: seq<nat>): Node
    requires ValidPos(f, pos)
    decreases pos
  {
    if |pos| == 1 then f[pos[0]] else NodeAt(f[pos[0]].children, pos[1..])
  }

  /** The accel-path segments of the rows from the top level down to `pos`. */
  function KeysAt(f: seq<Node>, pos: seq<nat>): (r: seq<string>)
    requires ValidPos(f, pos)
    ensures |r| == |pos|
    ensures r[|pos| - 1] == NodeAt(f, pos).key
    decreases pos
  {
    if |pos| == 1 then [f[pos[0]].key] else [f[pos[0]].key] + KeysAt(f[pos[0]].children, pos[1..])
  }

  /** Each segment preceded by a '/'. */
  function SlashJoin(keys: seq<string>): string
  {
    if |keys| == 0 then "" else "/" + keys[0] + SlashJoin(keys[1..])
  }

  /** path_to_accel: "<Darktable>" followed by "/segment" for every row on
      the way to `pos`. */
  function PathToAccel(f: seq<Node>, pos: seq<nat>): (r: string)
    requires ValidPos(f, pos)
    ensures |r| > |Root| && r[..|Root|] == Root && r[|Root|] == '/'
  {
    Root + SlashJoin(KeysAt(f, pos))
  }

  /** A position one level down, under the top-level row `i`. */
  lemma DescendPos(f: seq<Node>, i: nat, p: seq<nat>)
    requires i < |f| && ValidPos(f[i].children, p)
    ensures ValidPos(f, [i] + p)
    ensures NodeAt(f, [i] + p) == NodeAt(f[i].children, p)
    ensures KeysAt(f, [i] + p) == [f[i].key] + KeysAt(f[i].children, p)
  {
    assert ([i] + p)[1..] == p;
  }

  /** `g` keeps every row of `f` (segment, label and translated text) at its
      position; rows may have been added after the existing ones. */
  ghost predicate Extends(f: seq<Node>, g: seq<Node>)
    decreases f
  {
    |f| <= |g| &&
    forall i :: 0 <= i < |f| ==>
      g[i].key == f[i].key && g[i].display == f[i].display && g[i].trans == f[i].trans &&
      Extends(f[i].children, g[i].children)
  }

  lemma {:induction false} ExtendsRefl(f: seq<Node>)
    ensures Extends(f, f)
    decreases f
  {
    forall i | 0 <= i < |f| ensures Extends(f[i].children, f[i].children) {
      ExtendsRefl(f[i].children);
    }
  }

  lemma {:induction false} ExtendsTrans(f: seq<Node>, g: seq<Node>, h: seq<Node>)
    requires Extends(f, g) && Extends(g, h)
    ensures Extends(f, h)
    decreases f
  {
    forall i | 0 <= i < |f| ensures Extends(f[i].children, h[i].children) {
      ExtendsTrans(f[i].children, g[i].children, h[i].children);
    }
  }

  lemma ExtendsAppend(f: seq<Node>, n: Node)
    ensures Extends(f, f + [n])
  {
    ExtendsRefl(f);
    var g := f + [n];
    assert forall i :: 0 <= i < |f| ==> g[i] == f[i];
  }

  lemma ExtendsUpdate(f: seq<Node>, i: nat, c: seq<Node>)
    requires i < |f| && Extends(f[i].children, c)
    ensures Extends(f, f[i := f[i].(children := c)])
  {
    ExtendsRefl(f);
  }

  /** A row of `f` is found at the same position in any extension, with the
      same path and label. */
  lemma {:induction false} ExtendsPos(f: seq<Node>, g: seq<Node>, pos: seq<nat>)
    requires Extends(f, g) && ValidPos(f, pos)
    ensures ValidPos(g, pos)
    ensures KeysAt(g, pos) == KeysAt(f, pos)
    ensures NodeAt(g, pos).display == NodeAt(f, pos).display
    ensures NodeAt(g, pos).trans == NodeAt(f, pos).trans
    decreases pos
  {
    if |pos| > 1 {
      ExtendsPos(f[pos[0]].children, g[pos[0]].children, pos[1..]);
    }
  }

  // ---------------------------------------------------------------------
  // Building the tree

  /** The first row of `f` whose segment is `key` (the sibling scan). */
  function FindChild(f: seq<Node>, key: string): (r: Option<nat>)
    ensures r.Some? ==> r.value < |f| && f[r.value].key == key
    ensures r.Some? ==> forall j :: 0 <= j < r.value ==> f[j].key != key
    ensures r.None? ==> forall j :: 0 <= j < |f| ==> f[j].key != key
  {
    if |f| == 0 then None
    else if f[0].key == key then Some(0)
    else match FindChild(f[1..], key)
      case None => None
      case Some(i) => Some(i + 1)
  }

  function Under(i: nat, at: Option<seq<nat>>): Option<seq<nat>>
  {
    match at
    case None => None
    case Some(p) => Some([i] + p)
  }

  /** tree_insert_rec. `accel` and `trans` are what is left of the accel path
      and of the translated path. A rest without '/' on either side becomes a
      leaf (its translated text with '`' turned back into '/'). Otherwise the
      translated segment runs to its first '/'; each '`' in it stands for a
      '/' inside the segment, so the accel segment runs to the '/' after as
      many further ones; when the accel path has too few, the entry is
      dropped (the "translation mismatch" message). The segment then reuses
      the first sibling with the same accel segment or adds a branch row. */
  function InsertRec(f: seq<Node>, accel: string, trans: string, b: Binding): (r: Insertion)
    ensures Extends(f, r.forest)
    ensures |f| <= |r.forest| <= |f| + 1
    ensures r.at.Some? ==>
              ValidPos(r.forest, r.at.value) &&
              SlashJoin(KeysAt(r.forest, r.at.value)) == "/" + accel &&
              NodeAt(r.forest, r.at.value).display == KeyLabel(b) &&
              NodeAt(r.forest, r.at.value).children == []
    decreases |accel|
  {
    if |accel| == 0 then
      ExtendsRefl(f);
      Insertion(f, None)
    else if '/' !in accel || '/' !in trans then
      var leaf := Node(accel, KeyLabel(b), Replace(trans, '`', '/'), []);
      ExtendsAppend(f, leaf);
      assert SlashJoin([accel]) == "/" + accel;
      Insertion(f + [leaf], Some([|f|]))
    else
      var te := IndexOf(trans, '/').value;
      var transNode := trans[..te];
      match NthIndexOf(accel, '/', Count(transNode, '`'))
      case None =>
        ExtendsRefl(f);
        Insertion(f, None)
      case Some(e) =>
        var node := accel[..e];
        match FindChild(f, node)
        case Some(i) =>
          var sub := InsertRec(f[i].children, accel[e + 1..], trans[te + 1..], b);
          var g := f[i := f[i].(children := sub.forest)];
          ExtendsUpdate(f, i, sub.forest);
          if sub.at.Some? then
            DescendPos(g, i, sub.at.value);
            SegmentJoin(accel, e, KeysAt(sub.forest, sub.at.value));
            Insertion(g, Under(i, sub.at))
          else Insertion(g, None)
        case None =>
          var sub := InsertRec([], accel[e + 1..], trans[te + 1..], b);
          var g := f + [Node(node, Blank, Replace(transNode, '`', '/'), sub.forest)];
          ExtendsAppend(f, g[|f|]);
          if sub.at.Some? then
            DescendPos(g, |f|, sub.at.value);
            SegmentJoin(accel, e, KeysAt(sub.forest, sub.at.value));
            Insertion(g, Under(|f|, sub.at))
          else Insertion(g, None)
  }

  lemma SegmentJoin(accel: string, e: nat, keys: seq<string>)
    requires e < |accel| && accel[e] == '/'
    requires SlashJoin(keys) == "/" + accel[e + 1..]
    ensures SlashJoin([accel[..e]] + keys) == "/" + accel
  {
    assert ([accel[..e]] + keys)[1..] == keys;
    assert accel == accel[..e] + "/" + accel[e + 1..];
  }

  /** With no '`' in the translated path, the same number of '/' on both
      sides, and an accel path that is non-empty and does not end in '/',
      the entry always gets its leaf. */
  lemma {:induction false} InsertSucceeds(f: seq<Node>, accel: string, trans: string, b: Binding)
    requires accel != "" && !EndsWith(accel, '/')
    requires '`' !in trans && Count(accel, '/') == Count(trans, '/')
    ensures InsertRec(f, accel, trans, b).at.Some?
    decreases |accel|
  {
    if '/' in accel && '/' in trans {
      var te := IndexOf(trans, '/').value;
      var e := IndexOf(accel, '/').value;
      assert '`' !in trans[..te];
      CountZero(trans[..te], '`');
      CountZero(accel[..e], '/');
      NthIndexOfFirst(accel, '/');
      CountAfterFirst(accel, '/', e);
      CountAfterFirst(trans, '/', te);
      var rest := accel[e + 1..];
      assert |rest| > 0 && rest[|rest| - 1] == accel[|accel| - 1];
      assert '`' !in trans[te + 1..];
      match FindChild(f, accel[..e])
      case Some(i) =>
        InsertSucceeds(f[i].children, rest, trans[te + 1..], b);
      case None =>
        InsertSucceeds([], rest, trans[te + 1..], b);
    } else if '/' in accel {
      CountZero(trans, '/');
      CountZero(accel, '/');
    }
  }

  /** A translated segment that claims more '/' (written '`') than the accel
      path has left is dropped, leaving the tree as it was. */
  lemma InsertMismatch(f: seq<Node>, accel: string, trans: string, b: Binding)
    requires '/' in accel && '/' in trans
    requires Count(accel, '/') <= Count(trans[..IndexOf(trans, '/').value], '`')
    ensures InsertRec(f, accel, trans, b) == Insertion(f, None)
  {
  }

  /** Each '`' in the translated segment widens the accel segment by one
      '/'-separated piece: the branch key spans as many '/' as the segment has
      '`'. Afterwards a row with that key exists at this level; it is a new
      blank branch showing the segment with '`' read as '/' exactly when no
      sibling had the key. */
  lemma InsertBacktickBranch(f: seq<Node>, accel: string, trans: string, b: Binding)
    requires '/' in accel && '/' in trans
    requires Count(accel, '/') > Count(trans[..IndexOf(trans, '/').value], '`')
    ensures var transNode := trans[..IndexOf(trans, '/').value];
            var e := NthIndexOf(accel, '/', Count(transNode, '`')).value;
            var g := InsertRec(f, accel, trans, b).forest;
            Count(accel[..e], '/') == Count(transNode, '`') &&
            FindChild(g, accel[..e]).Some? &&
            (FindChild(f, accel[..e]).Some? ==> |g| == |f|) &&
            (FindChild(f, accel[..e]).None? ==>
               |g| == |f| + 1 && g[|f|].key == accel[..e] && g[|f|].display == Blank &&
               g[|f|].trans == Replace(transNode, '`', '/'))
  {
    var transNode := trans[..IndexOf(trans, '/').value];
    var e := NthIndexOf(accel, '/', Count(transNode, '`')).value;
    var g := InsertRec(f, accel, trans, b).forest;
    match FindChild(f, accel[..e])
    case Some(i) =>
      assert g[i].key == accel[..e];
    case None =>
      assert g[|f|].key == accel[..e];
  }

  /** An accel segment that already has a row at this level adds no row. */
  lemma InsertReusesBranch(f: seq<Node>, accel: string, trans: string, b: Binding)
    requires '/' in accel && '/' in trans
    requires '`' !in trans[..IndexOf(trans, '/').value]
    requires FindChild(f, accel[..IndexOf(accel, '/').value]).Some?
    ensures |InsertRec(f, accel, trans, b).forest| == |f|
  {
    var te := IndexOf(trans, '/').value;
    var e := IndexOf(accel, '/').value;
    CountZero(trans[..te], '`');
    CountZero(accel[..e], '/');
    NthIndexOfFirst(accel, '/');
  }

  /** A leaf is appended even when a row with the same segment exists: the
      same single-segment path inserted twice yields two rows, and the first
      one keeps its label. */
  lemma InsertLeafTwice(f: seq<Node>, accel: string, trans: string, b: Binding, b': Binding)
    requires accel != "" && '/' !in accel
    ensures var g := InsertRec(InsertRec(f, accel, trans, b).forest, accel, trans, b').forest;
            |g| == |f| + 2 && g[|f|].key == accel && g[|f| + 1].key == accel &&
            g[|f|].display == KeyLabel(b) && g[|f| + 1].display == KeyLabel(b')
  {
  }

  /** "<Darktable>" at the front of a path (the strncmp over its 11 characters). */
  predicate HasRoot(path: string)
  {
    |path| >= |Root| && path[..|Root|] == Root
  }

  /** What tree_insert_accel reads past "<Darktable>/" is in range. */
  predicate Insertable(a: Accel)
  {
    HasRoot(a.path) ==> |a.path| > |Root| && |a.translatedPath| > |Root|
  }

  /** tree_insert_accel: skip "<Darktable>" and one more character on both
      paths when the accel path starts with it, and insert with the path's
      current binding. */
  function TreeInsertAccel(f: seq<Node>, a: Accel, keys: map<string, Binding>): (r: Insertion)
    requires a.path in keys && Insertable(a)
    ensures Extends(f, r.forest)
    ensures r.at.Some? && HasRoot(a.path) && a.path[|Root|] == '/' ==>
              ValidPos(r.forest, r.at.value) &&
              PathToAccel(r.forest, r.at.value) == a.path &&
              NodeAt(r.forest, r.at.value).display == KeyLabel(keys[a.path])
  {
    if HasRoot(a.path) then
      var r := InsertRec(f, a.path[|Root| + 1..], a.translatedPath[|Root| + 1..], keys[a.path]);
      if r.at.Some? && a.path[|Root|] == '/' then
        RootJoin(a.path, KeysAt(r.forest, r.at.value));
        r
      else r
    else InsertRec(f, a.path, a.translatedPath, keys[a.path])
  }

  /** "<Darktable>" put back in front of the rest of a path after its '/'. */
  lemma RootJoin(path: string, keys: seq<string>)
    requires HasRoot(path) && |path| > |Root| && path[|Root|] == '/'
    requires SlashJoin(keys) == "/" + path[|Root| + 1..]
    ensures Root + SlashJoin(keys) == path
  {
    assert path == path[..|Root|] + [path[|Root|]] + path[|Root| + 1..];
  }

  /** The entries whose leaf tree_insert_accel is sure to place. */
  predicate WellFormed(a: Accel)
  {
    HasRoot(a.path) && |a.path| > |Root| + 1 && a.path[|Root|] == '/' && |a.translatedPath| > |Root| &&
    !EndsWith(a.path, '/') && '`' !in a.translatedPath[|Root| + 1..] &&
    Count(a.path[|Root| + 1..], '/') == Count(a.translatedPath[|Root| + 1..], '/')
  }

  /** The g_list_foreach of tree_insert_accel over the accelerator list. */
  function BuildTree(f: seq<Node>, accels: seq<Accel>, keys: map<string, Binding>): (r: seq<Node>)
    requires forall i :: 0 <= i < |accels| ==> accels[i].path in keys && Insertable(accels[i])
    ensures Extends(f, r)
    decreases |accels|
  {
    if |accels| == 0 then
      ExtendsRefl(f);
      f
    else
      var g := TreeInsertAccel(f, accels[0], keys).forest;
      var r := BuildTree(g, accels[1..], keys);
      ExtendsTrans(f, g, r);
      r
  }

  /** Some row of `t` has the accel path `path` and shows `b` in its binding column. */
  ghost predicate Shows(t: seq<Node>, path: string, b: Binding)
  {
    exists pos :: ValidPos(t, pos) && PathToAccel(t, pos) == path && NodeAt(t, pos).display == KeyLabel(b)
  }

  /** Every well-formed entry of the list has a row whose path is the
      entry's path and whose binding column shows the entry's binding. */
  lemma {:induction false} BuildTreeLocates(f: seq<Node>, accels: seq<Accel>, keys: map<string, Binding>, i: nat)
    requires forall j :: 0 <= j < |accels| ==> accels[j].path in keys && Insertable(accels[j])
    requires i < |accels| && WellFormed(accels[i])
    ensures Shows(BuildTree(f, accels, keys), accels[i].path, keys[accels[i].path])
    decreases |accels|
  {
    var g := TreeInsertAccel(f, accels[0], keys).forest;
    var r := BuildTree(g, accels[1..], keys);
    assert BuildTree(f, accels, keys) == r;
    if i == 0 {
      InsertShows(f, accels[0], keys);
      ShowsExtends(g, r, accels[0].path, keys[accels[0].path]);
    } else {
      assert accels[1..][i - 1] == accels[i];
      BuildTreeLocates(g, accels[1..], keys, i - 1);
    }
  }

  /** A well-formed entry gets its row on insertion. */
  lemma InsertShows(f: seq<Node>, a: Accel, keys: map<string, Binding>)
    requires a.path in keys && Insertable(a) && WellFormed(a)
    ensures Shows(TreeInsertAccel(f, a, keys).forest, a.path, keys[a.path])
  {
    InsertSucceeds(f, a.path[|Root| + 1..], a.translatedPath[|Root| + 1..], keys[a.path]);
    var ins := TreeInsertAccel(f, a, keys);
    assert ValidPos(ins.forest, ins.at.value);
  }

  /** A row that shows a binding still shows it in every extension. */
  lemma ShowsExtends(f: seq<Node>, g: seq<Node>, path: string, b: Binding)
    requires Extends(f, g) && Shows(f, path, b)
    ensures Shows(g, path, b)
  {
    var pos :| ValidPos(f, pos) && PathToAccel(f, pos) == path && NodeAt(f, pos).display == KeyLabel(b);
    ExtendsPos(f, g, pos);
    assert PathToAccel(g, pos) == path;
  }

  // ---------------------------------------------------------------------
  // Refreshing the binding column

  /** update_accels_model_rec on one row under the path `prefix`: a leaf
      shows the binding of its full path; a path missing from the map leaves
      the column as it was. */
  function RefreshNode(n: Node, prefix: string, keys: map<string, Binding>): (r: Node)
    ensures r.key == n.key && r.trans == n.trans && |r.children| == |n.children|
    ensures |n.children| > 0 ==> r.display == n.display
    ensures |n.children| == 0 ==> r.children == n.children
    decreases n, 1
  {
    var path := prefix + "/" + n.key;
    if |n.children| > 0 then n.(children := RefreshForest(n.children, path, keys))
    else if path in keys then n.(display := KeyLabel(keys[path]))
    else n
  }

  function RefreshForest(f: seq<Node>, prefix: string, keys: map<string, Binding>): (r: seq<Node>)
    ensures |r| == |f|
    ensures forall i :: 0 <= i < |f| ==> r[i] == RefreshNode(f[i], prefix, keys)
    decreases f, 0
  {
    if |f| == 0 then [] else [RefreshNode(f[0], prefix, keys)] + RefreshForest(f[1..], prefix, keys)
  }

  /** update_accels_model: refresh every top-level row under "<Darktable>". */
  function UpdateAccelsModel(f: seq<Node>, keys: map<string, Binding>): (r: seq<Node>)
    ensures |r| == |f|
    ensures forall i :: 0 <= i < |f| ==> r[i].key == f[i].key && r[i].trans == f[i].trans
  {
    RefreshForest(f, Root, keys)
  }

  /** After a refresh every row keeps its place, segment and translated text. */
  lemma {:induction false} RefreshKeeps(f: seq<Node>, prefix: string, keys: map<string, Binding>, pos: seq<nat>)
    requires ValidPos(f, pos)
    ensures ValidPos(RefreshForest(f, prefix, keys), pos)
    ensures KeysAt(RefreshForest(f, prefix, keys), pos) == KeysAt(f, pos)
    ensures NodeAt(RefreshForest(f, prefix, keys), pos).trans == NodeAt(f, pos).trans
    ensures |NodeAt(RefreshForest(f, prefix, keys), pos).children| == |NodeAt(f, pos).children|
    decreases pos
  {
    var r := RefreshForest(f, prefix, keys);
    var n := f[pos[0]];
    assert r[pos[0]] == RefreshNode(n, prefix, keys);
    if |pos| > 1 {
      RefreshKeeps(n.children, prefix + "/" + n.key, keys, pos[1..]);
    }
  }

  /** A leaf whose path is bound shows that binding after a refresh; every
      other row keeps its label. */
  lemma {:induction false} RefreshAt(f: seq<Node>, prefix: string, keys: map<string, Binding>, pos: seq<nat>)
    requires ValidPos(f, pos)
    ensures ValidPos(RefreshForest(f, prefix, keys), pos)
    ensures NodeAt(RefreshForest(f, prefix, keys), pos).display ==
            (var p := prefix + SlashJoin(KeysAt(f, pos));
             if NodeAt(f, pos).children == [] && p in keys then KeyLabel(keys[p]) else NodeAt(f, pos).display)
    decreases pos
  {
    RefreshKeeps(f, prefix, keys, pos);
    var r := RefreshForest(f, prefix, keys);
    var n := f[pos[0]];
    assert r[pos[0]] == RefreshNode(n, prefix, keys);
    if |pos| > 1 {
      var path := prefix + "/" + n.key;
      RefreshAt(n.children, path, keys, pos[1..]);
      PathStep(f, prefix, pos);
      PathStep(r, prefix, pos);
    } else {
      PathLeaf(f, prefix, pos);
    }
  }

  /** A position below the top level: its path continues the top-level
      row's path, and its row is found among that row's children. */
  lemma PathStep(f: seq<Node>, prefix: string, pos: seq<nat>)
    requires ValidPos(f, pos) && |pos| > 1
    ensures prefix + SlashJoin(KeysAt(f, pos)) ==
            (prefix + "/" + f[pos[0]].key) + SlashJoin(KeysAt(f[pos[0]].children, pos[1..]))
    ensures NodeAt(f, pos) == NodeAt(f[pos[0]].children, pos[1..])
  {
    var k := f[pos[0]].key;
    var rest := KeysAt(f[pos[0]].children, pos[1..]);
    KeysStep(f, pos);
    SlashJoinCons(k, rest);
    ConcatAssoc(prefix, "/" + k, SlashJoin(rest));
    NodeStep(f, pos);
  }

  lemma KeysStep(f: seq<Node>, pos: seq<nat>)
    requires ValidPos(f, pos) && |pos| > 1
    ensures KeysAt(f, pos) == [f[pos[0]].key] + KeysAt(f[pos[0]].children, pos[1..])
  {
  }

  lemma NodeStep(f: seq<Node>, pos: seq<nat>)
    requires ValidPos(f, pos) && |pos| > 1
    ensures NodeAt(f, pos) == NodeAt(f[pos[0]].children, pos[1..])
  {
  }

  lemma ConcatAssoc(a: string, b: string, c: string)
    ensures a + (b + c) == (a + b) + c
  {
  }

  lemma SlashJoinCons(k: string, rest: seq<string>)
    ensures SlashJoin([k] + rest) == "/" + k + SlashJoin(rest)
  {
    assert ([k] + rest)[1..] == rest;
  }

  lemma PathLeaf(f: seq<Node>, prefix: string, pos: seq<nat>)
    requires ValidPos(f, pos) && |pos| == 1
    ensures prefix + SlashJoin(KeysAt(f, pos)) == prefix + "/" + f[pos[0]].key
    ensures NodeAt(f, pos) == f[pos[0]]
  {
    assert KeysAt(f, pos)[1..] == [];
  }

  /** Every leaf whose path has a binding shows that binding. */
  ghost predicate Consistent(f: seq<Node>, keys: map<string, Binding>)
  {
    forall pos :: ValidPos(f, pos) && NodeAt(f, pos).children == [] && PathToAccel(f, pos) in keys ==>
      NodeAt(f, pos).display == KeyLabel(keys[PathToAccel(f, pos)])
  }

  /** After update_accels_model the binding column agrees with the map. */
  lemma UpdateConsistent(f: seq<Node>, keys: map<string, Binding>)
    ensures Consistent(UpdateAccelsModel(f, keys), keys)
  {
    var r := UpdateAccelsModel(f, keys);
    forall pos | ValidPos(r, pos) && NodeAt(r, pos).children == [] && PathToAccel(r, pos) in keys
      ensures NodeAt(r, pos).display == KeyLabel(keys[PathToAccel(r, pos)])
    {
      RefreshValidBack(f, Root, keys, pos);
      RefreshKeeps(f, Root, keys, pos);
      RefreshAt(f, Root, keys, pos);
    }
  }

  /** Positions of a refreshed forest are positions of the original one. */
  lemma {:induction false} RefreshValidBack(f: seq<Node>, prefix: string, keys: map<string, Binding>, pos: seq<nat>)
    requires ValidPos(RefreshForest(f, prefix, keys), pos)
    ensures ValidPos(f, pos)
    decreases pos
  {
    var r := RefreshForest(f, prefix, keys);
    assert r[pos[0]] == RefreshNode(f[pos[0]], prefix, keys);
    if |pos| > 1 {
      RefreshValidBack(f[pos[0]].children, prefix + "/" + f[pos[0]].key, keys, pos[1..]);
    }
  }

  // ---------------------------------------------------------------------
  // Setting one row's binding column

  /** gtk_tree_store_set of the binding column at `pos`. */
  function SetLabelAt(f: seq<Node>, pos: seq<nat>, text: Label): (r: seq<Node>)
    requires ValidPos(f, pos)
    ensures |r| == |f|
    ensures ValidPos(r, pos) && NodeAt(r, pos).display == text
    ensures KeysAt(r, pos) == KeysAt(f, pos)
    ensures NodeAt(r, pos).children == NodeAt(f, pos).children
    decreases pos
  {
    var i := pos[0];
    if |pos| == 1 then f[i := f[i].(display := text)]
    else
      var c := SetLabelAt(f[i].children, pos[1..], text);
      var r := f[i := f[i].(children := c)];
      DescendPos(r, i, pos[1..]);
      assert [i] + pos[1..] == pos;
      r
  }

  /** Setting a row's label back to what it was leaves the forest unchanged. */
  lemma {:induction false} SetLabelSame(f: seq<Node>, pos: seq<nat>)
    requires ValidPos(f, pos)
    ensures SetLabelAt(f, pos, NodeAt(f, pos).display) == f
    decreases pos
  {
    if |pos| > 1 {
      SetLabelSame(f[pos[0]].children, pos[1..]);
    }
  }

  /** The second of two label writes to a row is the one that stays. */
  lemma {:induction false} SetLabelTwice(f: seq<Node>, pos: seq<nat>, l1: Label, l2: Label)
    requires ValidPos(f, pos)
    ensures SetLabelAt(SetLabelAt(f, pos, l1), pos, l2) == SetLabelAt(f, pos, l2)
    decreases pos
  {
    if |pos| > 1 {
      SetLabelTwice(f[pos[0]].children, pos[1..], l1, l2);
    }
  }
}
