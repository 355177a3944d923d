/** Remapping shortcuts in the preferences dialog (gui/preferences.c):
    activating a leaf row starts a remap, the next non-modifier key press
    binds it (asking first when another shortcut in an overlapping scope
    already uses the key, and then clearing those), a selection change
    cancels it, and BackSpace clears the selected leaf's binding. */
module Remap {
  import opened Strings
  import opened Accelerators
  import opened AccelTree

  /** GDK_KEY_BackSpace. */
  const KeyBackSpace: nat := 0xff08

  /** accel_remap_str / accel_remap_path: the path and row being remapped. */
  datatype RemapState = Idle | Awaiting(path: string, pos: seq<nat>)

  datatype Dialog = Dialog(tree: seq<Node>, remap: RemapState)

  /** A key event: its key value, the translated modifier state and whether
      the key is itself a modifier. */
  datatype KeyEvent = KeyEvent(keyval: nat, mods: nat, isModifier: bool)

  /** The dialog and binding map after a key press, whether the press was
      handled, and the entry the confirmation question named, if one was asked. */
  datatype Outcome = Outcome(dialog: Dialog, keys: map<string, Binding>, handled: bool, asked: Option<Accel>)

  /** Two entries with these bindings get in each other's way: same key and
      modifiers, not two local shortcuts of different modules, and at least
      one view in common. */
  predicate Clash(a: Accel, ka: Binding, c: Accel, kc: Binding)
  {
    ka == kc && !(a.local && c.local && a.moduleId != c.moduleId) && a.views * c.views != {}
  }

  lemma ClashSymmetric(a: Accel, ka: Binding, c: Accel, kc: Binding)
    ensures Clash(a, ka, c, kc) <==> Clash(c, kc, a, ka)
  {
  }

  /** gtk_accel_map_change_entry with replacement: a known path takes the
      binding; an unknown one is left alone. */
  function ChangeEntry(keys: map<string, Binding>, path: string, b: Binding): (r: map<string, Binding>)
    ensures r.Keys == keys.Keys
    ensures path in keys ==> r[path] == b
    ensures forall p :: p in keys && p != path ==> r[p] == keys[p]
  {
    if path in keys then keys[path := b] else keys
  }

  // ---------------------------------------------------------------------
  // The conflict search

  /** The first entry from index `j` on, other than the one being remapped
      (index `cur`), whose path is bound and clashes with binding `b`. */
  function FirstConflict(accels: seq<Accel>, keys: map<string, Binding>, cur: nat, b: Binding, j: nat): (r: Option<nat>)
    requires cur < |accels| && j <= |accels|
    ensures r.Some? ==> j <= r.value < |accels| && r.value != cur && accels[r.value].path in keys &&
                        Clash(accels[r.value], keys[accels[r.value].path], accels[cur], b)
    ensures r.Some? ==> forall k :: j <= k < r.value && k != cur && accels[k].path in keys ==>
                          !Clash(accels[k], keys[accels[k].path], accels[cur], b)
    ensures r.None? ==> forall k :: j <= k < |accels| && k != cur && accels[k].path in keys ==>
                          !Clash(accels[k], keys[accels[k].path], accels[cur], b)
    decreases |accels| - j
  {
    if j == |accels| then None
    else if j != cur && accels[j].path in keys && Clash(accels[j], keys[accels[j].path], accels[cur], b) then Some(j)
    else FirstConflict(accels, keys, cur, b, j + 1)
  }

  // ---------------------------------------------------------------------
  // delete_matching_accels

  /** delete_matching_accels for one entry `current` against the remapped
      entry `mapped`: clear `current`'s path when its binding clashes. */
  function DeleteStep(keys: map<string, Binding>, current: Accel, mapped: Accel): (r: map<string, Binding>)
    requires current.path in keys && mapped.path in keys
    ensures r.Keys == keys.Keys
    ensures forall p :: p in keys && p != current.path ==> r[p] == keys[p]
    ensures r[mapped.path] == keys[mapped.path]
  {
    if current.path == mapped.path then keys
    else if Clash(current, keys[current.path], mapped, keys[mapped.path]) then keys[current.path := Unbound]
    else keys
  }

  /** Some entry of `accels` with path `p` clashes with `mapped` under `keys`. */
  predicate Clashing(accels: seq<Accel>, keys: map<string, Binding>, mapped: Accel, p: string)
    requires p in keys && mapped.path in keys
  {
    exists j :: 0 <= j < |accels| && accels[j].path == p && Clash(accels[j], keys[p], mapped, keys[mapped.path])
  }

  /** The g_list_foreach of delete_matching_accels. A path other than the
      remapped one ends up cleared exactly when some entry with that path
      clashed with the remapped entry; every other binding stays. */
  function DeleteMatching(accels: seq<Accel>, keys: map<string, Binding>, mapped: Accel): (r: map<string, Binding>)
    requires forall i :: 0 <= i < |accels| ==> accels[i].path in keys
    requires mapped.path in keys
    ensures r.Keys == keys.Keys
    ensures r[mapped.path] == keys[mapped.path]
    ensures forall p :: p in keys && p != mapped.path ==>
              r[p] == (if Clashing(accels, keys, mapped, p) then Unbound else keys[p])
    decreases |accels|
  {
    if |accels| == 0 then keys
    else
      var next := DeleteStep(keys, accels[0], mapped);
      var r := DeleteMatching(accels[1..], next, mapped);
      DeleteMatchingStep(accels, keys, mapped, next, r);
      r
  }

  lemma DeleteMatchingStep(accels: seq<Accel>, keys: map<string, Binding>, mapped: Accel,
                           next: map<string, Binding>, r: map<string, Binding>)
    requires |accels| > 0
    requires forall i :: 0 <= i < |accels| ==> accels[i].path in keys
    requires mapped.path in keys
    requires next == DeleteStep(keys, accels[0], mapped)
    requires r.Keys == next.Keys && r[mapped.path] == next[mapped.path]
    requires forall p :: p in next && p != mapped.path ==>
               r[p] == (if Clashing(accels[1..], next, mapped, p) then Unbound else next[p])
    ensures r.Keys == keys.Keys
    ensures r[mapped.path] == keys[mapped.path]
    ensures forall p :: p in keys && p != mapped.path ==>
              r[p] == (if Clashing(accels, keys, mapped, p) then Unbound else keys[p])
  {
    var q := accels[0].path;
    forall p | p in keys && p != mapped.path
      ensures r[p] == (if Clashing(accels, keys, mapped, p) then Unbound else keys[p])
    {
      if p != q {
        assert next[p] == keys[p];
        if Clashing(accels, keys, mapped, p) {
          var j :| 0 <= j < |accels| && accels[j].path == p && Clash(accels[j], keys[p], mapped, keys[mapped.path]);
          assert accels[1..][j - 1] == accels[j];
        }
        if Clashing(accels[1..], next, mapped, p) {
          var j :| 0 <= j < |accels[1..]| && accels[1..][j].path == p && Clash(accels[1..][j], next[p], mapped, next[mapped.path]);
          assert accels[j + 1] == accels[1..][j];
        }
      } else if Clash(accels[0], keys[q], mapped, keys[mapped.path]) {
        assert next[q] == Unbound;
      } else {
        assert next == keys;
        if Clashing(accels, keys, mapped, p) {
          var j :| 0 <= j < |accels| && accels[j].path == p && Clash(accels[j], keys[p], mapped, keys[mapped.path]);
          assert j != 0;
          assert accels[1..][j - 1] == accels[j];
        }
        if Clashing(accels[1..], next, mapped, p) {
          var j :| 0 <= j < |accels[1..]| && accels[1..][j].path == p && Clash(accels[1..][j], next[p], mapped, next[mapped.path]);
          assert accels[j + 1] == accels[1..][j];
        }
      }
    }
  }

  /** Once the clashing entries are cleared, no entry with another path
      clashes with the remapped one (unless it was remapped to no key). */
  lemma NoClashRemains(accels: seq<Accel>, keys: map<string, Binding>, mapped: Accel)
    requires forall i :: 0 <= i < |accels| ==> accels[i].path in keys
    requires mapped.path in keys
    ensures keys[mapped.path] != Unbound ==>
            forall j :: 0 <= j < |accels| && accels[j].path != mapped.path ==>
              !Clash(accels[j], DeleteMatching(accels, keys, mapped)[accels[j].path],
                     mapped, DeleteMatching(accels, keys, mapped)[mapped.path])
  {
    var r := DeleteMatching(accels, keys, mapped);
    forall j | 0 <= j < |accels| && accels[j].path != mapped.path && keys[mapped.path] != Unbound
      ensures !Clash(accels[j], r[accels[j].path], mapped, r[mapped.path])
    {
      var p := accels[j].path;
      if !Clashing(accels, keys, mapped, p) {
        assert !Clash(accels[j], keys[p], mapped, keys[mapped.path]);
      }
    }
  }

  // ---------------------------------------------------------------------
  // The dialog's handlers

  /** tree_row_activated_accels: on a leaf, show the prompt and start
      remapping its path; a branch only toggles its expansion. */
  function RowActivated(d: Dialog, pos: seq<nat>): (r: Dialog)
    requires ValidPos(d.tree, pos)
    ensures NodeAt(d.tree, pos).children != [] ==> r == d
    ensures NodeAt(d.tree, pos).children == [] ==>
              r.remap == Awaiting(PathToAccel(d.tree, pos), pos) &&
              ValidPos(r.tree, pos) && NodeAt(r.tree, pos).display == Prompt &&
              PathToAccel(r.tree, pos) == PathToAccel(d.tree, pos)
  {
    if NodeAt(d.tree, pos).children != [] then d
    else Dialog(SetLabelAt(d.tree, pos, Prompt), Awaiting(PathToAccel(d.tree, pos), pos))
  }

  /** tree_selection_changed: a pending remap is cancelled and its row shows
      the path's binding again. A path without a binding leaves the row as it
      is (the source reads an unset key there). */
  function SelectionChanged(d: Dialog, keys: map<string, Binding>): (r: Dialog)
    requires d.remap.Awaiting? ==> ValidPos(d.tree, d.remap.pos)
    ensures r.remap == Idle
    ensures d.remap.Idle? ==> r == d
    ensures d.remap.Awaiting? && d.remap.path in keys ==>
              ValidPos(r.tree, d.remap.pos) && NodeAt(r.tree, d.remap.pos).display == KeyLabel(keys[d.remap.path])
  {
    match d.remap
    case Idle => d
    case Awaiting(path, pos) =>
      var text := if path in keys then KeyLabel(keys[path]) else NodeAt(d.tree, pos).display;
      Dialog(SetLabelAt(d.tree, pos, text), Idle)
  }

  /** Activating a leaf that shows its binding and then moving the selection
      away gives back the dialog as it was. */
  lemma CancelRestores(d: Dialog, keys: map<string, Binding>, pos: seq<nat>)
    requires d.remap == Idle && ValidPos(d.tree, pos) && NodeAt(d.tree, pos).children == []
    requires PathToAccel(d.tree, pos) in keys && NodeAt(d.tree, pos).display == KeyLabel(keys[PathToAccel(d.tree, pos)])
    ensures SelectionChanged(RowActivated(d, pos), keys) == d
  {
    var path := PathToAccel(d.tree, pos);
    SetLabelTwice(d.tree, pos, Prompt, KeyLabel(keys[path]));
    SetLabelSame(d.tree, pos);
  }

  /** The binding map after the key press that completes a remap of entry
      `cur` to binding `b`: bound directly when nothing clashes; otherwise
      bound, with the clashing entries cleared, only if the user confirms. */
  function RemapKeys(accels: seq<Accel>, keys: map<string, Binding>, cur: nat, b: Binding, confirm: bool)
    : (r: map<string, Binding>)
    requires forall i :: 0 <= i < |accels| ==> accels[i].path in keys
    requires cur < |accels|
    ensures r.Keys == keys.Keys
    ensures FirstConflict(accels, keys, cur, b, 0).None? || confirm ==> r[accels[cur].path] == b
    ensures FirstConflict(accels, keys, cur, b, 0).Some? && !confirm ==> r == keys
    ensures FirstConflict(accels, keys, cur, b, 0).None? ==>
              forall p :: p in keys && p != accels[cur].path ==> r[p] == keys[p]
    ensures FirstConflict(accels, keys, cur, b, 0).Some? && confirm ==>
              forall p :: p in keys && p != accels[cur].path ==>
                r[p] == (if Clashing(accels, ChangeEntry(keys, accels[cur].path, b), accels[cur], p) then Unbound else keys[p])
    ensures (FirstConflict(accels, keys, cur, b, 0).None? || confirm) && b != Unbound ==>
              forall j :: 0 <= j < |accels| && accels[j].path != accels[cur].path ==>
                !Clash(accels[j], r[accels[j].path], accels[cur], r[accels[cur].path])
  {
    var path := accels[cur].path;
    match FirstConflict(accels, keys, cur, b, 0)
    case None => ChangeEntry(keys, path, b)
    case Some(_) =>
      if confirm then
        var changed := ChangeEntry(keys, path, b);
        NoClashRemains(accels, changed, accels[cur]);
        DeleteMatching(accels, changed, accels[cur])
      else keys
  }

  /** tree_key_press. Modifier keys are ignored. While remapping, the key
      (lower-cased by `lower`, gdk_keyval_to_lower) with the event's modifiers
      becomes the binding as RemapKeys says; `confirm` is the user's answer
      to the conflict question. The binding column is then refreshed and the
      remap ends. Otherwise BackSpace on a selected leaf clears its binding.
      The entry being remapped is the first one with the remap path. */
  function KeyPress(d: Dialog, keys: map<string, Binding>, accels: seq<Accel>, ev: KeyEvent, lower: nat -> nat,
                    selection: Option<seq<nat>>, confirm: bool): (r: Outcome)
    requires Valid(Registry(accels, keys))
    requires d.remap.Awaiting? ==> Lookup(accels, d.remap.path).Some?
    requires selection.Some? ==> ValidPos(d.tree, selection.value)
    ensures ev.isModifier ==> r == Outcome(d, keys, false, None)
    ensures !ev.isModifier && d.remap.Awaiting? ==>
              var cur := FindIndex(accels, d.remap.path).value;
              var b := Binding(lower(ev.keyval), ev.mods);
              r.handled && r.dialog.remap == Idle &&
              r.keys == RemapKeys(accels, keys, cur, b, confirm) &&
              r.asked == (match FirstConflict(accels, keys, cur, b, 0)
                          case None => None
                          case Some(j) => Some(accels[j])) &&
              Consistent(r.dialog.tree, r.keys)
    ensures !ev.isModifier && d.remap.Idle? && ev.keyval == KeyBackSpace && selection.Some? &&
            NodeAt(d.tree, selection.value).children == [] ==>
              r.handled && r.keys == ChangeEntry(keys, PathToAccel(d.tree, selection.value), Unbound) &&
              Consistent(r.dialog.tree, r.keys)
    ensures !r.handled ==> r.dialog == d && r.keys == keys
  {
    if ev.isModifier then Outcome(d, keys, false, None)
    else match d.remap
      case Awaiting(path, _) =>
        var cur := FindIndex(accels, path).value;
        var b := Binding(lower(ev.keyval), ev.mods);
        var keys' := RemapKeys(accels, keys, cur, b, confirm);
        var asked := match FirstConflict(accels, keys, cur, b, 0)
                     case None => None
                     case Some(j) => Some(accels[j]);
        UpdateConsistent(d.tree, keys');
        Outcome(Dialog(UpdateAccelsModel(d.tree, keys'), Idle), keys', true, asked)
      case Idle =>
        if ev.keyval != KeyBackSpace then Outcome(d, keys, false, None)
        else match selection
          case None => Outcome(d, keys, false, None)
          case Some(pos) =>
            if NodeAt(d.tree, pos).children != [] then Outcome(d, keys, false, None)
            else
              var keys' := ChangeEntry(keys, PathToAccel(d.tree, pos), Unbound);
              UpdateConsistent(d.tree, keys');
              Outcome(d.(tree := UpdateAccelsModel(d.tree, keys')), keys', true, None)
  }
}
