/** The sort orders of the shortcut tree and of the presets tree
    (gui/preferences.c). String collation (strcoll) is the parameter `coll`. */
module Ordering {
  import opened Strings
  import opened AccelTree
  import opened Presets

  /** A translated text ending in a space marks a module's default action. */
  predicate DefaultAction(trans: string)
  {
    EndsWith(trans, ' ')
  }

  /** compare_rows_accels: a branch counts -2 for the left row and +2 for the
      right one; a default action on the left resets the score to -4 whatever
      the children, one on the right adds 4; collation breaks the tie by one
      either way, so the result is never 0. An empty text counts as no
      default action (the source reads before its start there). */
  function CompareRowsAccels(a: Node, b: Node, coll: (string, string) -> int): (r: int)
    ensures r != 0
    ensures DefaultAction(a.trans) && !DefaultAction(b.trans) ==> r < 0
  {
    var branches := (if a.children != [] then -2 else 0) + (if b.children != [] then 2 else 0);
    var left := if DefaultAction(a.trans) then -4 else branches;
    var right := if DefaultAction(b.trans) then left + 4 else left;
    right + (if coll(a.trans, b.trans) < 0 then -1 else 1)
  }

  /** Where a row sorts: default actions first, then branches, then leaves. */
  function Rank(n: Node): (r: nat)
    ensures r <= 2
  {
    if DefaultAction(n.trans) then 0 else if n.children != [] then 1 else 2
  }

  /** The comparison is the lexicographic order on (rank, collation): `a`
      sorts before `b` exactly when its rank is lower, or the ranks are equal
      and collation puts `a` first. It never reports two rows equal. */
  lemma CompareAccelsOrder(a: Node, b: Node, coll: (string, string) -> int)
    ensures CompareRowsAccels(a, b, coll) < 0 <==>
            Rank(a) < Rank(b) || (Rank(a) == Rank(b) && coll(a.trans, b.trans) < 0)
    ensures CompareRowsAccels(a, b, coll) != 0
  {
  }

  /** With a collation that orders the two texts one way round, swapping the
      rows flips the comparison. */
  lemma CompareAccelsAntisymmetric(a: Node, b: Node, coll: (string, string) -> int)
    requires coll(a.trans, b.trans) < 0 <==> coll(b.trans, a.trans) >= 0
    ensures CompareRowsAccels(a, b, coll) < 0 <==> CompareRowsAccels(b, a, coll) > 0
  {
    CompareAccelsOrder(a, b, coll);
    CompareAccelsOrder(b, a, coll);
  }

  /** A default action sorts before every row that is not one, branches included. */
  lemma DefaultActionFirst(a: Node, b: Node, coll: (string, string) -> int)
    requires DefaultAction(a.trans) && !DefaultAction(b.trans)
    ensures CompareRowsAccels(a, b, coll) < 0 && CompareRowsAccels(b, a, coll) > 0
  {
    CompareAccelsOrder(a, b, coll);
    CompareAccelsOrder(b, a, coll);
  }

  /** compare_rows_presets: the module column decides unless both rows leave
      it empty (two presets under a header), when the name column does. */
  function CompareRowsPresets(aModule: string, aName: string, bModule: string, bName: string,
                              coll: (string, string) -> int): (r: int)
  {
    if aModule == "" && bModule == "" then coll(aName, bName) else coll(aModule, bModule)
  }

  /** The rows tree_insert_presets builds: a header shows the module's name
      with an empty name column, a preset an empty module column with its
      name. */
  function HeaderRow(moduleName: string): (string, string)
  {
    (moduleName, "")
  }

  function PresetRow(p: Preset): (string, string)
  {
    ("", p.name)
  }

  function ComparePresetRows(a: (string, string), b: (string, string), coll: (string, string) -> int): int
  {
    CompareRowsPresets(a.0, a.1, b.0, b.1, coll)
  }

  /** The text a row is listed by: its module column, or its name when the
      module column is empty. */
  function Shown(row: (string, string)): string
  {
    if row.0 == "" then row.1 else row.0
  }

  /** Rows of one level: all with a module column or all without. */
  predicate SameLevel(x: (string, string), y: (string, string))
  {
    (x.0 == "") == (y.0 == "")
  }

  /** Each level of the presets tree sorts by the text its rows show:
      headers by module name, even a header whose name is empty, and the
      presets under one header by their names. */
  lemma ComparePresetsLevels(aModule: string, bModule: string, p: Preset, q: Preset, coll: (string, string) -> int)
    ensures ComparePresetRows(HeaderRow(aModule), HeaderRow(bModule), coll) == coll(aModule, bModule)
    ensures ComparePresetRows(PresetRow(p), PresetRow(q), coll) == coll(p.name, q.name)
  {
  }

  /** On one level, a collation that orders the three shown texts
      transitively orders the rows transitively, so sorting siblings is
      consistent. */
  lemma ComparePresetsTransitive(x: (string, string), y: (string, string), z: (string, string),
                                 coll: (string, string) -> int)
    requires SameLevel(x, y) && SameLevel(y, z)
    requires coll(Shown(x), Shown(y)) < 0 && coll(Shown(y), Shown(z)) < 0 ==> coll(Shown(x), Shown(z)) < 0
    ensures ComparePresetRows(x, y, coll) < 0 && ComparePresetRows(y, z, coll) < 0 ==>
            ComparePresetRows(x, z, coll) < 0
  {
  }

  /** Swapping two rows flips the comparison whenever collation flips on
      both columns. */
  lemma ComparePresetsAntisymmetric(aModule: string, aName: string, bModule: string, bName: string,
                                    coll: (string, string) -> int)
    requires coll(aModule, bModule) < 0 <==> coll(bModule, aModule) > 0
    requires coll(aName, bName) < 0 <==> coll(bName, aName) > 0
    ensures CompareRowsPresets(aModule, aName, bModule, bName, coll) < 0 <==>
            CompareRowsPresets(bModule, bName, aModule, aName, coll) > 0
  {
  }
}
