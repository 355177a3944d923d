/** The accelerator registry of darktable's gui/accelerators.c: canonical path
    construction, the newest-first accelerator list, registration (with and
    without de-duplication), lookup, deregistration, and the index arithmetic
    of the combobox next/previous actions.

    The GTK accelerator map is the finite map `keys` from a path to its current
    binding; translation is the uninterpreted `Lang` passed in. */
module Accelerators {
  import opened Strings

  /** The views a shortcut can be active in (the DT_VIEW_* flags). A flag mask
      is a set of views: `|` is union, `&` is intersection. */
  datatype View = Lighttable | Darkroom | Tethering | Map | Slideshow | Print

  const AllViews: set<View> := {Darkroom, Lighttable, Tethering, Map, Print, Slideshow}

  /** A key code and a modifier mask; (0, 0) is "no shortcut". */
  datatype Binding = Binding(key: nat, mods: nat)

  const Unbound := Binding(0, 0)

  /** dt_accel_t without its GTK closure. */
  datatype Accel = Accel(path: string, translatedPath: string, moduleId: string, local: bool, views: set<View>)

  /** The accelerator list (newest registration first) and the key-binding map. */
  datatype Registry = Registry(accels: seq<Accel>, keys: map<string, Binding>)

  /** The three translation lookups the builders use: the "accel" message
      context (C_ and g_dpgettext2), plain `_()`/g_dgettext, and `Q_()`. */
  datatype Lang = Lang(accel: string -> string, plain: string -> string, qualified: string -> string)

  /** Every listed accelerator has an entry in the binding map. */
  ghost predicate Valid(reg: Registry)
  {
    forall i :: 0 <= i < |reg.accels| ==> reg.accels[i].path in reg.keys
  }

  const Root := "<Darktable>"

  // ---------------------------------------------------------------------
  // Canonical paths

  function PathGlobal(path: string): string
  {
    Root + "/global/" + path
  }

  function PathView(moduleId: string, path: string): string
  {
    Root + "/views/" + moduleId + "/" + path
  }

  function PathLib(moduleId: string, path: string): string
  {
    Root + "/modules/" + moduleId + "/" + path
  }

  function PathLua(path: string): string
  {
    Root + "/lua/" + path
  }

  function PathManual(fullPath: string): string
  {
    Root + "/" + fullPath
  }

  /** The builders' results read segment by segment: "<Darktable>", the
      category literal, then the '/'-separated pieces of the arguments. */
  lemma GlobalSegments(path: string)
    ensures Split(PathGlobal(path), '/') == [Root, "global"] + Split(path, '/')
  {
    assert "/global/" == "/" + "global" + "/";
    assert PathGlobal(path) == Root + "/" + "global" + "/" + path;
    TwoSegments("global", path);
  }

  lemma LuaSegments(path: string)
    ensures Split(PathLua(path), '/') == [Root, "lua"] + Split(path, '/')
  {
    assert "/lua/" == "/" + "lua" + "/";
    assert PathLua(path) == Root + "/" + "lua" + "/" + path;
    TwoSegments("lua", path);
  }

  lemma ManualSegments(fullPath: string)
    ensures Split(PathManual(fullPath), '/') == [Root] + Split(fullPath, '/')
  {
    assert PathManual(fullPath) == Root + ['/'] + fullPath;
    SplitAppendNoSep(Root, '/', fullPath);
  }

  lemma ViewSegments(moduleId: string, path: string)
    ensures Split(PathView(moduleId, path), '/') == [Root, "views"] + Split(moduleId, '/') + Split(path, '/')
  {
    assert "/views/" == "/" + "views" + "/";
    assert PathView(moduleId, path) == Root + "/" + "views" + "/" + moduleId + "/" + path;
    ThreeSegments("views", moduleId, path);
  }

  lemma LibSegments(moduleId: string, path: string)
    ensures Split(PathLib(moduleId, path), '/') == [Root, "modules"] + Split(moduleId, '/') + Split(path, '/')
  {
    assert "/modules/" == "/" + "modules" + "/";
    assert PathLib(moduleId, path) == Root + "/" + "modules" + "/" + moduleId + "/" + path;
    ThreeSegments("modules", moduleId, path);
  }

  lemma TwoSegments(category: string, path: string)
    requires '/' !in category
    ensures Split(Root + "/" + category + "/" + path, '/') == [Root, category] + Split(path, '/')
  {
    var rest := category + ['/'] + path;
    assert Root + "/" + category + "/" + path == Root + ['/'] + rest;
    SplitAppendNoSep(Root, '/', rest);
    SplitAppendNoSep(category, '/', path);
  }

  lemma ThreeSegments(category: string, moduleId: string, path: string)
    requires '/' !in category
    ensures Split(Root + "/" + category + "/" + moduleId + "/" + path, '/') ==
            [Root, category] + Split(moduleId, '/') + Split(path, '/')
  {
    var tail := moduleId + ['/'] + path;
    var rest := category + ['/'] + tail;
    assert Root + "/" + category + "/" + moduleId + "/" + path == Root + ['/'] + rest;
    SplitAppendNoSep(Root, '/', rest);
    SplitAppendNoSep(category, '/', tail);
    SplitAppend(moduleId, '/', path);
    PairAssoc(Root, category, Split(moduleId, '/'), Split(path, '/'));
  }

  lemma TripleAssoc<T>(x: T, y: T, z: T, s: seq<T>)
    ensures [x] + ([y] + ([z] + s)) == [x, y, z] + s
  {
  }

  lemma PairAssoc<T>(x: T, y: T, a: seq<T>, b: seq<T>)
    ensures [x] + ([y] + (a + b)) == [x, y] + a + b
  {
  }

  /** Text after the first '|' (the message context of a `Q_()` string), or
      all of `s` when it has none. */
  function StripContext(s: string): (r: string)
    ensures '|' in s ==> exists i :: 0 <= i < |s| && s[i] == '|' && '|' !in s[..i] && r == s[i + 1..]
    ensures '|' !in s ==> r == s
  {
    match IndexOf(s, '|')
    case None => s
    case Some(i) => s[i + 1..]
  }

  function StripAll(parts: seq<string>): (r: seq<string>)
    ensures |r| == |parts|
    ensures forall i :: 0 <= i < |parts| ==> r[i] == StripContext(parts[i])
  {
    if |parts| == 0 then [] else [StripContext(parts[0])] + StripAll(parts[1..])
  }

  /** The module name and the path pieces dt_accel_path_iop puts after
      "image operations": the path split on '`' into at most four pieces,
      "preset" as first piece translated, a first piece "blend" turned into
      the module "blending", and every piece stripped of its context prefix. */
  function IopPieces(moduleId: string, path: string, lang: Lang): (string, seq<string>)
    requires path != ""
  {
    var split := SplitMax(path, '`', 4);
    if split[0] == "preset" then (moduleId, StripAll([lang.plain("preset")] + split[1..]))
    else if split[0] == "blend" then ("blending", StripAll(split[1..]))
    else (moduleId, StripAll(split))
  }

  const IopBase := Root + "/image operations/"

  /** dt_accel_path_iop; a null `path` is `None`. g_strsplit of "" yields no
      pieces and the source then dereferences a null first piece, so the empty
      path is excluded. */
  function PathIop(moduleId: string, path: Option<string>, lang: Lang): (r: string)
    requires path != Some("")
    ensures |r| >= |IopBase| && r[..|IopBase|] == IopBase
    ensures path.None? ==> r[|IopBase|..] == moduleId
  {
    match path
    case None => IopBase + moduleId
    case Some(p) =>
      var (m, pieces) := IopPieces(moduleId, p, lang);
      IopBase + m + "/" + Join(pieces, '/')
  }

  /** An iop path with an ordinary first piece: its at most four '`'-pieces,
      every one stripped of its context prefix, become the segments under the
      module's own "image operations" branch; a fourth or later '`' stays
      inside the last piece. Without contexts the pieces are kept as they
      are, and with at most three '`' every '`' simply becomes a '/'. */
  lemma IopPathPlain(moduleId: string, p: string, lang: Lang)
    requires p != ""
    requires SplitMax(p, '`', 4)[0] != "preset" && SplitMax(p, '`', 4)[0] != "blend"
    ensures PathIop(moduleId, Some(p), lang) == IopBase + moduleId + "/" + Join(StripAll(SplitMax(p, '`', 4)), '/')
    ensures Join(SplitMax(p, '`', 4), '`') == p
    ensures '|' !in p ==> PathIop(moduleId, Some(p), lang) == IopBase + moduleId + "/" + Join(SplitMax(p, '`', 4), '/')
    ensures '|' !in p && Count(p, '`') < 4 ==>
              PathIop(moduleId, Some(p), lang) == IopBase + moduleId + "/" + Replace(p, '`', '/')
  {
    JoinSplitMax(p, '`', 4);
    if '|' !in p {
      SplitMaxAvoids(p, '`', 4, '|');
      NoContextStripped(SplitMax(p, '`', 4));
      if Count(p, '`') < 4 {
        SplitMaxFull(p, '`', 4);
        JoinSplitReplace(p, '`', '/');
      }
    }
  }

  /** Pieces that carry no '|' are left alone by the context strip. */
  lemma NoContextStripped(pieces: seq<string>)
    requires forall k :: 0 <= k < |pieces| ==> '|' !in pieces[k]
    ensures StripAll(pieces) == pieces
  {
  }

  /** A "blend`" prefix files the rest of the path under the "blending"
      module: the rest splits into at most three pieces, the last keeping
      any later '`', each stripped of its context prefix. */
  lemma IopPathBlend(moduleId: string, q: string, lang: Lang)
    ensures PathIop(moduleId, Some("blend`" + q), lang) ==
            IopBase + "blending" + "/" + Join(StripAll(SplitMax(q, '`', 3)), '/')
    ensures Count(q, '`') < 3 ==>
              PathIop(moduleId, Some("blend`" + q), lang) ==
              IopBase + "blending" + "/" + Join(StripAll(Split(q, '`')), '/')
  {
    var p := "blend`" + q;
    assert p == "blend" + ['`'] + q;
    SplitMaxPrefix("blend", q, '`', 3);
    var split := SplitMax(p, '`', 4);
    assert split == ["blend"] + SplitMax(q, '`', 3);
    assert split[0] != "preset" by {
      assert |split[0]| != |"preset"|;
    }
    assert split[1..] == SplitMax(q, '`', 3);
    assert IopPieces(moduleId, p, lang) == ("blending", StripAll(SplitMax(q, '`', 3)));
    if Count(q, '`') < 3 {
      SplitMaxFull(q, '`', 3);
    }
  }

  /** A "preset`" prefix keeps the module and puts the translated word first,
      followed by the at most three pieces of the rest. */
  lemma IopPathPreset(moduleId: string, q: string, lang: Lang)
    ensures PathIop(moduleId, Some("preset`" + q), lang) ==
            IopBase + moduleId + "/" + Join(StripAll([lang.plain("preset")] + SplitMax(q, '`', 3)), '/')
    ensures Count(q, '`') < 3 ==>
              PathIop(moduleId, Some("preset`" + q), lang) ==
              IopBase + moduleId + "/" + Join(StripAll([lang.plain("preset")] + Split(q, '`')), '/')
  {
    var p := "preset`" + q;
    assert p == "preset" + ['`'] + q;
    SplitMaxPrefix("preset", q, '`', 3);
    var split := SplitMax(p, '`', 4);
    assert split == ["preset"] + SplitMax(q, '`', 3);
    assert split[1..] == SplitMax(q, '`', 3);
    assert IopPieces(moduleId, p, lang) == (moduleId, StripAll([lang.plain("preset")] + SplitMax(q, '`', 3)));
    if Count(q, '`') < 3 {
      SplitMaxFull(q, '`', 3);
    }
  }

  // ---------------------------------------------------------------------
  // Translated paths (the text shown in the shortcut tree)

  function GlobalTranslated(path: string, lang: Lang): string
  {
    Root + "/" + lang.accel("global") + "/" + lang.accel(path)
  }

  function ViewTranslated(viewName: string, path: string, lang: Lang): string
  {
    Root + "/" + lang.accel("views") + "/" + viewName + "/" + lang.accel(path)
  }

  function LibTranslated(libName: string, path: string, lang: Lang): string
  {
    Root + "/" + lang.accel("utility modules") + "/" + libName + "/" + lang.accel(path)
  }

  function LuaTranslated(path: string, lang: Lang): string
  {
    Root + "/" + lang.accel("lua") + "/" + lang.accel(path)
  }

  function ManualTranslated(fullPath: string, lang: Lang): string
  {
    Root + "/" + lang.accel(fullPath)
  }

  /** One piece of a translated iop path: its translation, a trailing space
      for "preset", and '/' escaped as '`' so it stays a single tree segment. */
  function TranslatePiece(piece: string, lang: Lang): (r: string)
    ensures '/' !in r
  {
    Replace(lang.qualified(piece) + (if piece == "preset" then " " else ""), '/', '`')
  }

  function TranslatePieces(pieces: seq<string>, lang: Lang): (r: seq<string>)
    ensures |r| == |pieces|
    ensures forall i :: 0 <= i < |pieces| ==> r[i] == TranslatePiece(pieces[i], lang)
  {
    if |pieces| == 0 then [] else [TranslatePiece(pieces[0], lang)] + TranslatePieces(pieces[1..], lang)
  }

  /** dt_accel_path_iop_translated; `moduleName` is the module's display name. */
  function IopTranslated(moduleName: string, path: Option<string>, lang: Lang): (r: string)
    requires path != Some("")
    ensures var prefix := Root + "/" + lang.accel("processing modules") + "/";
            |r| >= |prefix| && r[..|prefix|] == prefix
  {
    var prefix := Root + "/" + lang.accel("processing modules") + "/";
    var clean := Replace(moduleName, '/', '-');
    prefix + match path
      case None => clean
      case Some(p) =>
        var split := SplitMax(p, '`', 4);
        if split[0] == "blend" then lang.plain("blending") + " " + "/" + Join(TranslatePieces(split[1..], lang), '/')
        else clean + "/" + Join(TranslatePieces(split, lang), '/')
  }

  /** With a category name free of '/', the translated iop path is one tree
      segment per level: "<Darktable>", the category, the module name with
      its '/' turned into '-', and then one segment per translated piece. */
  lemma IopTranslatedSegments(moduleName: string, path: Option<string>, lang: Lang)
    requires path != Some("") && '/' !in lang.accel("processing modules")
    requires path.Some? ==> SplitMax(path.value, '`', 4)[0] != "blend"
    ensures var cat, clean := lang.accel("processing modules"), Replace(moduleName, '/', '-');
            Split(IopTranslated(moduleName, path, lang), '/') ==
            [Root, cat, clean] + (if path.None? then [] else TranslatePieces(SplitMax(path.value, '`', 4), lang))
  {
    var cat, clean := lang.accel("processing modules"), Replace(moduleName, '/', '-');
    ReplaceRemoves(moduleName, '/', '-');
    match path
    case None =>
      assert IopTranslated(moduleName, path, lang) == Root + "/" + cat + "/" + clean;
      SplitThree(Root, cat, clean);
    case Some(p) =>
      var pieces := TranslatePieces(SplitMax(p, '`', 4), lang);
      var tail := Join(pieces, '/');
      SplitJoin(pieces, '/');
      assert IopTranslated(moduleName, path, lang) == (Root + "/" + cat + "/") + (clean + "/" + tail);
      PrefixGlue(Root, cat, clean, tail);
      SplitSegments(Root, cat, clean, tail, pieces);
  }

  /** The "blend" case: the module segment is the translated word "blending"
      followed by a space, then one segment per translated piece after the
      first; a bare "blend" leaves one empty segment after the trailing '/'. */
  lemma IopTranslatedBlendSegments(moduleName: string, p: string, lang: Lang)
    requires p != "" && SplitMax(p, '`', 4)[0] == "blend"
    requires '/' !in lang.accel("processing modules") && '/' !in lang.plain("blending")
    ensures var split := SplitMax(p, '`', 4);
            Split(IopTranslated(moduleName, Some(p), lang), '/') ==
            [Root, lang.accel("processing modules"), lang.plain("blending") + " "] +
            (if |split| == 1 then [""] else TranslatePieces(split[1..], lang))
  {
    var cat, blend := lang.accel("processing modules"), lang.plain("blending") + " ";
    var split := SplitMax(p, '`', 4);
    var pieces := TranslatePieces(split[1..], lang);
    var tail := Join(pieces, '/');
    assert IopTranslated(moduleName, Some(p), lang) == (Root + "/" + cat + "/") + (blend + "/" + tail);
    PrefixGlue(Root, cat, blend, tail);
    assert '/' !in blend;
    SlashFreeSegments(cat, blend, pieces);
  }

  lemma PrefixGlue(a: string, b: string, c: string, d: string)
    ensures (a + "/" + b + "/") + (c + "/" + d) == a + "/" + b + "/" + c + "/" + d
  {
  }

  /** Splitting "<Darktable>/a/b/" followed by joined '/'-free parts. */
  lemma SlashFreeSegments(a: string, b: string, parts: seq<string>)
    requires '/' !in a && '/' !in b
    requires forall i :: 0 <= i < |parts| ==> '/' !in parts[i]
    ensures Split(Root + "/" + a + "/" + b + "/" + Join(parts, '/'), '/') ==
            [Root, a, b] + (if |parts| == 0 then [""] else parts)
  {
    if |parts| == 0 {
      SplitNoSep("", '/', 1);
      SplitSegments(Root, a, b, "", [""]);
    } else {
      SplitJoin(parts, '/');
      SplitSegments(Root, a, b, Join(parts, '/'), parts);
    }
  }

  lemma SplitThree(a: string, b: string, c: string)
    requires '/' !in a && '/' !in b && '/' !in c
    ensures Split(a + "/" + b + "/" + c, '/') == [a, b, c]
  {
    var t := b + ['/'] + c;
    assert a + "/" + b + "/" + c == a + ['/'] + t;
    SplitAppendNoSep(a, '/', t);
    SplitAppendNoSep(b, '/', c);
    SplitNoSep(c, '/', 1);
    ThreeCons(a, b, c);
  }

  lemma ThreeCons<T>(x: T, y: T, z: T)
    ensures [x] + ([y] + [z]) == [x, y, z]
  {
  }


  lemma SplitSegments(a: string, b: string, c: string, tail: string, parts: seq<string>)
    requires '/' !in a && '/' !in b && '/' !in c && Split(tail, '/') == parts
    ensures Split(a + "/" + b + "/" + c + "/" + tail, '/') == [a, b, c] + parts
  {
    var t2 := c + ['/'] + tail;
    var t1 := b + ['/'] + t2;
    assert a + "/" + b + "/" + c + "/" + tail == a + ['/'] + t1;
    SplitAppendNoSep(a, '/', t1);
    SplitAppendNoSep(b, '/', t2);
    SplitAppendNoSep(c, '/', tail);
    TripleAssoc(a, b, c, parts);
  }



  // ---------------------------------------------------------------------
  // The accelerator list

  /** Index of the first accelerator with `path` (the loop of _lookup_accel). */
  function FindIndex(accels: seq<Accel>, path: string): (r: Option<nat>)
    ensures r.Some? ==> r.value < |accels| && accels[r.value].path == path
    ensures r.Some? ==> forall j :: 0 <= j < r.value ==> accels[j].path != path
    ensures r.None? ==> forall j :: 0 <= j < |accels| ==> accels[j].path != path
  {
    if |accels| == 0 then None
    else if accels[0].path == path then Some(0)
    else match FindIndex(accels[1..], path)
      case None => None
      case Some(i) => Some(i + 1)
  }

  /** _lookup_accel / dt_accel_find_by_path: the first entry with `path`. */
  function Lookup(accels: seq<Accel>, path: string): (r: Option<Accel>)
    ensures r.Some? <==> exists j :: 0 <= j < |accels| && accels[j].path == path
    ensures r.Some? ==> r.value.path == path && r.value in accels
    ensures r.Some? ==> exists j :: 0 <= j < |accels| && accels[j] == r.value &&
                          forall i :: 0 <= i < j ==> accels[i].path != path
  {
    match FindIndex(accels, path)
    case None => None
    case Some(i) => Some(accels[i])
  }

  /** No two entries of the list share a path. */
  ghost predicate UniquePaths(accels: seq<Accel>)
  {
    forall i, j :: 0 <= i < j < |accels| ==> accels[i].path != accels[j].path
  }

  /** gtk_accel_map_add_entry: a path already in the map keeps its binding. */
  function AddEntry(keys: map<string, Binding>, path: string, b: Binding): (r: map<string, Binding>)
    ensures r.Keys == keys.Keys + {path}
    ensures path in keys ==> r == keys
    ensures path !in keys ==> r[path] == b
    ensures forall p :: p in keys ==> r[p] == keys[p]
  {
    if path in keys then keys else keys[path := b]
  }

  /** The list with `a` in front and the binding map with an entry for its path. */
  function Prepend(reg: Registry, a: Accel, b: Binding): (r: Registry)
    requires Valid(reg)
    ensures Valid(r)
    ensures r.accels == [a] + reg.accels
    ensures r.keys == AddEntry(reg.keys, a.path, b)
  {
    Registry([a] + reg.accels, AddEntry(reg.keys, a.path, b))
  }

  /** The common tail of every dt_accel_register_*: prepend to the list and
      make sure the path has a binding entry. */
  function Register(reg: Registry, a: Accel, b: Binding): (r: Registry)
    requires Valid(reg)
    ensures Valid(r)
    ensures r.accels == [a] + reg.accels
    ensures r.keys == AddEntry(reg.keys, a.path, b)
    ensures Lookup(r.accels, a.path) == Some(a)
    ensures forall p :: p != a.path ==> Lookup(r.accels, p) == Lookup(reg.accels, p)
  {
    LookupPrepend(a, reg.accels);
    Prepend(reg, a, b)
  }

  /** A new front entry is what its path looks up to, and every other path
      looks up as before. */
  lemma LookupPrepend(a: Accel, accels: seq<Accel>)
    ensures Lookup([a] + accels, a.path) == Some(a)
    ensures forall p :: p != a.path ==> Lookup([a] + accels, p) == Lookup(accels, p)
  {
    forall p | p != a.path
      ensures Lookup([a] + accels, p) == Lookup(accels, p)
    {
      assert ([a] + accels)[1..] == accels;
      match FindIndex(accels, p)
      case None =>
      case Some(i) =>
        assert FindIndex([a] + accels, p) == Some(i + 1);
    }
  }

  function RegisterGlobal(reg: Registry, path: string, b: Binding, lang: Lang): (r: Registry)
    requires Valid(reg)
    ensures Valid(r)
    ensures r.accels == [Accel(PathGlobal(path), GlobalTranslated(path, lang), "", false, AllViews)] + reg.accels
  {
    Register(reg, Accel(PathGlobal(path), GlobalTranslated(path, lang), "", false, AllViews), b)
  }

  /** `viewName` is the view's display name, `views` what the view reports as its type. */
  function RegisterView(reg: Registry, moduleId: string, viewName: string, views: set<View>, path: string,
                        b: Binding, lang: Lang): (r: Registry)
    requires Valid(reg)
    ensures Valid(r)
    ensures r.accels == [Accel(PathView(moduleId, path), ViewTranslated(viewName, path, lang), moduleId, false, views)] + reg.accels
  {
    Register(reg, Accel(PathView(moduleId, path), ViewTranslated(viewName, path, lang), moduleId, false, views), b)
  }

  function RegisterIop(reg: Registry, op: string, moduleName: string, local: bool, path: Option<string>,
                       b: Binding, lang: Lang): (r: Registry)
    requires Valid(reg)
    requires path != Some("")
    ensures Valid(r)
    ensures r.accels == [Accel(PathIop(op, path, lang), IopTranslated(moduleName, path, lang), op, local, {Darkroom})] + reg.accels
  {
    Register(reg, Accel(PathIop(op, path, lang), IopTranslated(moduleName, path, lang), op, local, {Darkroom}), b)
  }

  /** The single view a view name stands for; none for an unknown name. */
  function ViewOfName(name: string): (r: set<View>)
    ensures |r| <= 1
  {
    if name == "lighttable" then {Lighttable}
    else if name == "darkroom" then {Darkroom}
    else if name == "print" then {Print}
    else if name == "slideshow" then {Slideshow}
    else if name == "map" then {Map}
    else if name == "tethering" then {Tethering}
    else {}
  }

  function ViewName(v: View): string
  {
    match v
    case Lighttable => "lighttable"
    case Darkroom => "darkroom"
    case Print => "print"
    case Slideshow => "slideshow"
    case Map => "map"
    case Tethering => "tethering"
  }

  /** A view name denotes exactly the view that carries it. */
  lemma ViewOfNameInverse(name: string, v: View)
    ensures v in ViewOfName(name) <==> name == ViewName(v)
  {
    match v
    case Lighttable =>
    case Darkroom =>
    case Print =>
    case Slideshow =>
    case Map =>
    case Tethering =>
  }

  function RegisterLibAsView(reg: Registry, viewName: string, path: string, b: Binding, lang: Lang): (r: Registry)
    requires Valid(reg)
    ensures Valid(r)
    ensures Lookup(reg.accels, PathView(viewName, path)).Some? ==> r == reg
    ensures Lookup(reg.accels, PathView(viewName, path)).None? ==>
              |r.accels| == |reg.accels| + 1 && r.accels[1..] == reg.accels &&
              r.accels[0].path == PathView(viewName, path) && r.accels[0].views == ViewOfName(viewName)
    ensures Lookup(r.accels, PathView(viewName, path)).Some?
    ensures UniquePaths(reg.accels) ==> UniquePaths(r.accels)
  {
    var p := PathView(viewName, path);
    if Lookup(reg.accels, p).Some? then reg
    else
      var t := Root + "/" + lang.accel("views") + "/" + lang.plain(viewName) + "/" + lang.accel(path);
      Register(reg, Accel(p, t, viewName, false, ViewOfName(viewName)), b)
  }

  function RegisterLibForViews(reg: Registry, plugin: string, libName: string, views: set<View>, path: string,
                               b: Binding, lang: Lang): (r: Registry)
    requires Valid(reg)
    ensures Valid(r)
    ensures Lookup(reg.accels, PathLib(plugin, path)).Some? ==> r == reg
    ensures Lookup(reg.accels, PathLib(plugin, path)).None? ==>
              |r.accels| == |reg.accels| + 1 && r.accels[1..] == reg.accels &&
              r.accels[0].path == PathLib(plugin, path) && r.accels[0].views == views
    ensures Lookup(r.accels, PathLib(plugin, path)).Some?
    ensures UniquePaths(reg.accels) ==> UniquePaths(r.accels)
  {
    var p := PathLib(plugin, path);
    if Lookup(reg.accels, p).Some? then reg
    else Register(reg, Accel(p, LibTranslated(libName, path, lang), plugin, false, views), b)
  }

  /** A view-name entry of a lib names view `v`: "*" names them all. */
  predicate Names(name: string, v: View)
  {
    name == "*" || name == ViewName(v)
  }

  /** The flags one entry of a lib's view list contributes. */
  function NameViews(name: string): (r: set<View>)
    ensures forall v :: v in r <==> Names(name, v)
  {
    var r := if name == "*" then AllViews else ViewOfName(name);
    forall v ensures v in r <==> Names(name, v) {
      ViewOfNameInverse(name, v);
      InAllViews(v);
    }
    r
  }

  /** The view mask dt_accel_register_lib computes from a lib's view names:
      a view is in it exactly when some entry names it. */
  function ViewMask(names: seq<string>): (r: set<View>)
    ensures forall v :: v in r <==> exists i :: 0 <= i < |names| && Names(names[i], v)
  {
    if |names| == 0 then {}
    else
      var rest := ViewMask(names[1..]);
      ViewMaskCons(names, rest);
      NameViews(names[0]) + rest
  }

  lemma ViewMaskCons(names: seq<string>, rest: set<View>)
    requires |names| > 0
    requires forall v :: v in rest <==> exists i :: 0 <= i < |names[1..]| && Names(names[1..][i], v)
    ensures forall v :: v in NameViews(names[0]) + rest <==> exists i :: 0 <= i < |names| && Names(names[i], v)
  {
    forall v ensures v in NameViews(names[0]) + rest <==> exists i :: 0 <= i < |names| && Names(names[i], v) {
      if exists i :: 0 <= i < |names| && Names(names[i], v) {
        var i :| 0 <= i < |names| && Names(names[i], v);
        if i > 0 {
          assert names[1..][i - 1] == names[i];
        }
      }
    }
  }

  function RegisterLib(reg: Registry, plugin: string, libName: string, viewNames: seq<string>, path: string,
                       b: Binding, lang: Lang): (r: Registry)
    requires Valid(reg)
    ensures Valid(r)
    ensures Lookup(reg.accels, PathLib(plugin, path)).None? ==>
              |r.accels| > 0 && r.accels[0].views == ViewMask(viewNames) && r.accels[1..] == reg.accels
    ensures Lookup(reg.accels, PathLib(plugin, path)).Some? ==> r == reg
  {
    RegisterLibForViews(reg, plugin, libName, ViewMask(viewNames), path, b, lang)
  }

  /** The accelerator _accel_register_actions_iop adds for one action. */
  function ActionAccel(op: string, moduleName: string, local: bool, path: Option<string>, action: string,
                       lang: Lang): (r: Accel)
    requires path != Some("")
    ensures EndsWith(r.translatedPath, ' ')
    ensures r.views == {Darkroom} && r.moduleId == op && r.local == local
    ensures |r.path| > |action| && r.path[|r.path| - |action| - 1] == '/' && r.path[|r.path| - |action|..] == action
  {
    Accel(PathIop(op, path, lang) + "/" + action,
          IopTranslated(moduleName, path, lang) + "/" + lang.accel(action) + " ",
          op, local, {Darkroom})
  }

  /** The entries _accel_register_actions_iop creates, one per action. */
  function ActionAccels(op: string, moduleName: string, local: bool, path: Option<string>,
                        actions: seq<string>, lang: Lang): (r: seq<Accel>)
    requires path != Some("")
    ensures |r| == |actions|
    ensures forall i :: 0 <= i < |actions| ==> r[i] == ActionAccel(op, moduleName, local, path, actions[i], lang)
  {
    seq(|actions|, i requires 0 <= i < |actions| => ActionAccel(op, moduleName, local, path, actions[i], lang))
  }

  /** Register each of `items` in turn with no initial shortcut. */
  function RegisterEach(reg: Registry, items: seq<Accel>): (r: Registry)
    requires Valid(reg)
    ensures Valid(r)
    ensures |r.accels| == |reg.accels| + |items|
    ensures r.accels[|items|..] == reg.accels
    ensures forall i :: 0 <= i < |items| ==> r.accels[|items| - 1 - i] == items[i]
    decreases |items|
  {
    if |items| == 0 then reg
    else
      var next := Prepend(reg, items[0], Unbound);
      var r := RegisterEach(next, items[1..]);
      RegisterEachOrder(reg, items, next, r);
      r
  }

  lemma RegisterEachOrder(reg: Registry, items: seq<Accel>, next: Registry, r: Registry)
    requires |items| > 0 && next.accels == [items[0]] + reg.accels
    requires |r.accels| == |next.accels| + |items| - 1 && r.accels[|items| - 1..] == next.accels
    requires forall i :: 0 <= i < |items| - 1 ==> r.accels[|items| - 2 - i] == items[1..][i]
    ensures |r.accels| == |reg.accels| + |items|
    ensures r.accels[|items|..] == reg.accels
    ensures forall i :: 0 <= i < |items| ==> r.accels[|items| - 1 - i] == items[i]
  {
    assert r.accels[|items|..] == next.accels[1..];
    assert r.accels[|items| - 1] == next.accels[0];
    forall i | 0 < i < |items| ensures r.accels[|items| - 1 - i] == items[i] {
      assert items[1..][i - 1] == items[i];
    }
  }

  /** Registering in turn adds each new path with no shortcut and keeps the
      binding of every path already in the map. */
  lemma {:induction false} RegisterEachKeys(reg: Registry, items: seq<Accel>)
    requires Valid(reg)
    ensures forall i :: 0 <= i < |items| && items[i].path !in reg.keys ==>
              items[i].path in RegisterEach(reg, items).keys && RegisterEach(reg, items).keys[items[i].path] == Unbound
    ensures forall p :: p in reg.keys ==> p in RegisterEach(reg, items).keys && RegisterEach(reg, items).keys[p] == reg.keys[p]
    decreases |items|
  {
    if |items| > 0 {
      var next := Prepend(reg, items[0], Unbound);
      RegisterEachKeys(next, items[1..]);
      var r := RegisterEach(reg, items);
      assert r == RegisterEach(next, items[1..]);
      forall i | 0 <= i < |items| && items[i].path !in reg.keys
        ensures items[i].path in r.keys && r.keys[items[i].path] == Unbound
      {
        if i > 0 {
          assert items[1..][i - 1] == items[i];
        }
      }
    }
  }

  /** _accel_register_actions_iop: one entry per action, each prepended in
      turn with no initial shortcut, so the last action ends up first. */
  function RegisterActionsIop(reg: Registry, op: string, moduleName: string, local: bool, path: Option<string>,
                              actions: seq<string>, lang: Lang): (r: Registry)
    requires Valid(reg)
    requires path != Some("")
    ensures Valid(r)
    ensures |r.accels| == |reg.accels| + |actions|
    ensures r.accels[|actions|..] == reg.accels
    ensures forall i :: 0 <= i < |actions| ==>
              r.accels[|actions| - 1 - i] == ActionAccel(op, moduleName, local, path, actions[i], lang)
  {
    RegisterEach(reg, ActionAccels(op, moduleName, local, path, actions, lang))
  }

  /** The binding map after _accel_register_actions_iop: every action path
      that was not in the map starts with no shortcut, and every path that
      was keeps its binding. */
  lemma RegisterActionsIopKeys(reg: Registry, op: string, moduleName: string, local: bool, path: Option<string>,
                               actions: seq<string>, lang: Lang)
    requires Valid(reg)
    requires path != Some("")
    ensures var r := RegisterActionsIop(reg, op, moduleName, local, path, actions, lang);
            (forall i :: 0 <= i < |actions| && PathIop(op, path, lang) + "/" + actions[i] !in reg.keys ==>
               PathIop(op, path, lang) + "/" + actions[i] in r.keys &&
               r.keys[PathIop(op, path, lang) + "/" + actions[i]] == Unbound) &&
            (forall p :: p in reg.keys ==> p in r.keys && r.keys[p] == reg.keys[p])
  {
    var items := ActionAccels(op, moduleName, local, path, actions, lang);
    RegisterEachKeys(reg, items);
    forall i | 0 <= i < |actions|
      ensures items[i].path == PathIop(op, path, lang) + "/" + actions[i]
    {
    }
  }

  const CommonActions: seq<string> := ["show module", "enable module", "focus module", "reset module parameters", "show preset menu"]
  const SliderActions: seq<string> := ["increase", "decrease", "reset", "edit", "dynamic"]
  const ComboboxActions: seq<string> := ["next", "previous", "dynamic"]

  function RegisterCommonIop(reg: Registry, op: string, moduleName: string, lang: Lang): (r: Registry)
    requires Valid(reg)
    ensures Valid(r)
  {
    RegisterActionsIop(reg, op, moduleName, false, None, CommonActions, lang)
  }

  function RegisterComboboxIop(reg: Registry, op: string, moduleName: string, local: bool, path: string,
                               lang: Lang): (r: Registry)
    requires Valid(reg)
    requires path != ""
    ensures Valid(r)
  {
    RegisterActionsIop(reg, op, moduleName, local, Some(path), ComboboxActions, lang)
  }

  function RegisterSliderIop(reg: Registry, op: string, moduleName: string, local: bool, path: string,
                             lang: Lang): (r: Registry)
    requires Valid(reg)
    requires path != ""
    ensures Valid(r)
  {
    RegisterActionsIop(reg, op, moduleName, local, Some(path), SliderActions, lang)
  }

  function RegisterLua(reg: Registry, path: string, b: Binding, lang: Lang): (r: Registry)
    requires Valid(reg)
    ensures Valid(r)
    ensures r.accels == [Accel(PathLua(path), LuaTranslated(path, lang), "", false, AllViews)] + reg.accels
  {
    Register(reg, Accel(PathLua(path), LuaTranslated(path, lang), "", false, AllViews), b)
  }

  function RegisterManual(reg: Registry, fullPath: string, views: set<View>, b: Binding, lang: Lang): (r: Registry)
    requires Valid(reg)
    ensures Valid(r)
    ensures r.accels == [Accel(PathManual(fullPath), ManualTranslated(fullPath, lang), "", false, views)] + reg.accels
  {
    Register(reg, Accel(PathManual(fullPath), ManualTranslated(fullPath, lang), "", false, views), b)
  }

  /** The list with its first entry for `path` unlinked. */
  function RemoveFirst(accels: seq<Accel>, path: string): (r: seq<Accel>)
    ensures FindIndex(accels, path).None? ==> r == accels
    ensures FindIndex(accels, path).Some? ==>
              var i := FindIndex(accels, path).value; r == accels[..i] + accels[i + 1..]
  {
    if |accels| == 0 then []
    else if accels[0].path == path then accels[1..]
    else
      var rest := RemoveFirst(accels[1..], path);
      RemoveFirstCons(accels, path, rest);
      [accels[0]] + rest
  }

  lemma RemoveFirstCons(accels: seq<Accel>, path: string, rest: seq<Accel>)
    requires |accels| > 0 && accels[0].path != path
    requires FindIndex(accels[1..], path).None? ==> rest == accels[1..]
    requires FindIndex(accels[1..], path).Some? ==>
               var j := FindIndex(accels[1..], path).value; rest == accels[1..][..j] + accels[1..][j + 1..]
    ensures FindIndex(accels, path).None? ==> [accels[0]] + rest == accels
    ensures FindIndex(accels, path).Some? ==>
              var i := FindIndex(accels, path).value; [accels[0]] + rest == accels[..i] + accels[i + 1..]
  {
    match FindIndex(accels[1..], path)
    case None =>
      assert [accels[0]] + accels[1..] == accels;
    case Some(j) =>
      assert FindIndex(accels, path) == Some(j + 1);
      assert accels[..j + 1] == [accels[0]] + accels[1..][..j];
      assert accels[j + 2..] == accels[1..][j + 1..];
  }

  /** dt_accel_deregister_global; the binding map keeps its entry. */
  function DeregisterGlobal(reg: Registry, path: string): (r: Registry)
    requires Valid(reg)
    ensures Valid(r)
    ensures r.keys == reg.keys
    ensures FindIndex(reg.accels, PathGlobal(path)).None? ==> r.accels == reg.accels
    ensures FindIndex(reg.accels, PathGlobal(path)).Some? ==>
              var i := FindIndex(reg.accels, PathGlobal(path)).value;
              |r.accels| == |reg.accels| - 1 && r.accels[..i] == reg.accels[..i] && r.accels[i..] == reg.accels[i + 1..]
  {
    reg.(accels := RemoveFirst(reg.accels, PathGlobal(path)))
  }

  /** dt_accel_deregister_lua; the binding map keeps its entry. */
  function DeregisterLua(reg: Registry, path: string): (r: Registry)
    requires Valid(reg)
    ensures Valid(r)
    ensures r.keys == reg.keys
    ensures FindIndex(reg.accels, PathLua(path)).None? ==> r.accels == reg.accels
    ensures FindIndex(reg.accels, PathLua(path)).Some? ==>
              var i := FindIndex(reg.accels, PathLua(path)).value;
              |r.accels| == |reg.accels| - 1 && r.accels[..i] == reg.accels[..i] && r.accels[i..] == reg.accels[i + 1..]
  {
    reg.(accels := RemoveFirst(reg.accels, PathLua(path)))
  }

  /** Deregistering a global shortcut right after registering it gives back
      the list as it was; the binding map keeps the new entry. */
  lemma DeregisterGlobalUndoesRegister(reg: Registry, path: string, b: Binding, lang: Lang)
    requires Valid(reg)
    ensures DeregisterGlobal(RegisterGlobal(reg, path, b, lang), path).accels == reg.accels
    ensures PathGlobal(path) in DeregisterGlobal(RegisterGlobal(reg, path, b, lang), path).keys
  {
  }

  lemma DeregisterLuaUndoesRegister(reg: Registry, path: string, b: Binding, lang: Lang)
    requires Valid(reg)
    ensures DeregisterLua(RegisterLua(reg, path, b, lang), path).accels == reg.accels
    ensures PathLua(path) in DeregisterLua(RegisterLua(reg, path, b, lang), path).keys
  {
  }

  /** Deregistering removes exactly one entry: with unique paths, the path is
      gone afterwards and every other path is still found. */
  lemma DeregisterGlobalRemoves(reg: Registry, path: string)
    requires Valid(reg) && UniquePaths(reg.accels)
    ensures Lookup(DeregisterGlobal(reg, path).accels, PathGlobal(path)).None?
    ensures forall p :: p != PathGlobal(path) ==>
              Lookup(DeregisterGlobal(reg, path).accels, p) == Lookup(reg.accels, p)
  {
    var r := DeregisterGlobal(reg, path).accels;
    var g := PathGlobal(path);
    match FindIndex(reg.accels, g)
    case None =>
    case Some(i) =>
      assert r == reg.accels[..i] + reg.accels[i + 1..];
      forall j | 0 <= j < |r| ensures r[j].path != g {
        if j < i { assert r[j] == reg.accels[j]; } else { assert r[j] == reg.accels[j + 1]; }
      }
      forall p | p != g ensures Lookup(r, p) == Lookup(reg.accels, p) {
        LookupSkipsOther(reg.accels, i, p);
      }
  }

  /** Unlinking an entry whose path differs from `p` does not change what `p` finds. */
  lemma LookupSkipsOther(accels: seq<Accel>, i: nat, p: string)
    requires i < |accels| && accels[i].path != p
    ensures Lookup(accels[..i] + accels[i + 1..], p) == Lookup(accels, p)
  {
    var r := accels[..i] + accels[i + 1..];
    match FindIndex(accels, p)
    case None =>
      forall j | 0 <= j < |r| ensures r[j].path != p {
        if j < i { assert r[j] == accels[j]; } else { assert r[j] == accels[j + 1]; }
      }
    case Some(k) =>
      var k' := if k < i then k else k - 1;
      assert r[k'] == accels[k];
      forall j | 0 <= j < k' ensures r[j].path != p {
        if j < i { assert r[j] == accels[j]; } else { assert r[j] == accels[j + 1]; }
      }
      assert FindIndex(r, p) == Some(k');
  }

  /** Registering the same lib shortcut twice has the effect of registering it once. */
  lemma RegisterLibIdempotent(reg: Registry, plugin: string, libName: string, viewNames: seq<string>,
                              path: string, b: Binding, b': Binding, lang: Lang)
    requires Valid(reg)
    ensures RegisterLib(RegisterLib(reg, plugin, libName, viewNames, path, b, lang), plugin, libName, viewNames, path, b', lang)
            == RegisterLib(reg, plugin, libName, viewNames, path, b, lang)
  {
  }

  /** A "*" among the view names makes the shortcut active in every view. */
  lemma ViewMaskStar(names: seq<string>)
    requires "*" in names
    ensures ViewMask(names) == AllViews
  {
    var i :| 0 <= i < |names| && names[i] == "*";
    forall v ensures v in ViewMask(names) && v in AllViews {
      assert Names(names[i], v);
      InAllViews(v);
    }
  }

  lemma InAllViews(v: View)
    ensures v in AllViews
  {
    match v
    case Lighttable =>
    case Darkroom =>
    case Print =>
    case Slideshow =>
    case Map =>
    case Tethering =>
  }

  /** Names that are neither "*" nor a view's name contribute no view. */
  lemma ViewMaskUnknown(names: seq<string>, known: seq<string>)
    requires forall i :: 0 <= i < |names| ==> names[i] != "*" && ViewOfName(names[i]) == {}
    ensures ViewMask(known + names) == ViewMask(known)
  {
    var all := known + names;
    forall v ensures v in ViewMask(all) <==> v in ViewMask(known) {
      if v in ViewMask(all) {
        var i :| 0 <= i < |all| && Names(all[i], v);
        if i >= |known| {
          assert all[i] == names[i - |known|];
          ViewOfNameInverse(all[i], v);
          assert false;
        }
        assert known[i] == all[i];
      }
      if v in ViewMask(known) {
        var i :| 0 <= i < |known| && Names(known[i], v);
        assert all[i] == known[i];
      }
    }
  }

  // ---------------------------------------------------------------------
  // Combobox next/previous

  /** bauhaus_combobox_next_callback: the entry after `current`, wrapping to 0. */
  function NextIndex(current: int, length: int): (r: int)
    ensures 0 <= current < length ==> 0 <= r < length
    ensures 0 <= current < length - 1 ==> r == current + 1
    ensures 0 < length && current == length - 1 ==> r == 0
  {
    if current + 1 >= length then 0 else current + 1
  }

  /** bauhaus_combobox_prev_callback as written: from the first entry it
      moves to `length`, one past the last entry. */
  function PrevIndexAsWritten(current: int, length: int): (r: int)
    ensures 0 < current < length ==> 0 <= r < length && NextIndex(r, length) == current
    ensures current == 0 ==> r == length
  {
    if current - 1 < 0 then length else current - 1
  }

  /** The previous entry, wrapping from the first to the last one. */
  function PrevIndex(current: int, length: int): (r: int)
    ensures 0 <= current < length ==> 0 <= r < length
  {
    if current - 1 < 0 then length - 1 else current - 1
  }

  /** Stepping forward then back, or back then forward, returns to the same entry. */
  lemma PrevNextInverse(current: int, length: int)
    requires 0 <= current < length
    ensures PrevIndex(NextIndex(current, length), length) == current
    ensures NextIndex(PrevIndex(current, length), length) == current
  {
  }

  /** The index the source computes when stepping back from the first entry
      lies outside the combobox, so "previous" does not undo "next" from the
      last entry. */
  lemma PrevAsWrittenLeavesRange(length: int)
    requires length > 0
    ensures !(0 <= PrevIndexAsWritten(0, length) < length)
    ensures PrevIndexAsWritten(NextIndex(length - 1, length), length) != length - 1
  {
  }
}
