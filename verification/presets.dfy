/** The text columns of the presets tree (tree_insert_presets in
    gui/preferences.c): the ISO, exposure, aperture and focal-length ranges of
    a preset as labels, "%" standing for "any", and the grouping of presets
    under one header row per operation. Values are exact reals; single
    precision rounding is not modelled. */
module Presets {
  import opened Strings

  /** FLT_MAX, the largest finite single-precision value. */
  const FltMax: real := 340282346638528859811704183484516925440.0

  const ExposureValues: seq<real> := [
    0.0, 1.0 / 8000.0, 1.0 / 4000.0, 1.0 / 2000.0, 1.0 / 1000.0, 1.0 / 1000.0, 1.0 / 500.0, 1.0 / 250.0,
    1.0 / 125.0, 1.0 / 60.0, 1.0 / 30.0, 1.0 / 15.0, 1.0 / 15.0, 1.0 / 8.0, 1.0 / 4.0, 1.0 / 2.0,
    1.0, 2.0, 4.0, 8.0, 15.0, 30.0, 60.0, FltMax]

  const ExposureLabels: seq<string> := [
    "0", "1/8000", "1/4000", "1/2000", "1/1000", "1/1000", "1/500", "1/250",
    "1/125", "1/60", "1/30", "1/15", "1/15", "1/8", "1/4", "1/2",
    "1\"", "2\"", "4\"", "8\"", "15\"", "30\"", "60\"", "+"]

  const ApertureValues: seq<real> := [
    0.0, 0.5, 0.7, 1.0, 1.4, 2.0, 2.8, 4.0, 5.6, 8.0,
    11.0, 16.0, 22.0, 32.0, 45.0, 64.0, 90.0, 128.0, FltMax]

  const ApertureLabels: seq<string> := [
    "f/0", "f/0.5", "f/0.7", "f/1.0", "f/1.4", "f/2", "f/2.8", "f/4", "f/5.6", "f/8",
    "f/11", "f/16", "f/22", "f/32", "f/45", "f/64", "f/90", "f/128", "f/+"]

  /** The separator of a range label: space, EN DASH, space. */
  const Dash: string := " \U{2013} "

  /** The bucket scan: skips the leading entries below `v` and stops at the
      first table entry not below it. */
  function Bucket(v: real, table: seq<real>, from: nat): (r: nat)
    requires from <= |table| && |table| > 0 && v <= table[|table| - 1]
    requires forall j :: 0 <= j < from ==> v > table[j]
    ensures from <= r < |table| && v <= table[r]
    ensures forall j :: 0 <= j < r ==> v > table[j]
    decreases |table| - from
  {
    if v > table[from] then Bucket(v, table, from + 1) else from
  }

  /** A larger value never lands in an earlier bucket. */
  lemma BucketMonotone(v: real, w: real, table: seq<real>)
    requires |table| > 0 && v <= w <= table[|table| - 1]
    ensures Bucket(v, table, 0) <= Bucket(w, table, 0)
  {
  }

  /** A table whose entries never decrease. */
  predicate Sorted(table: seq<real>)
  {
    forall i, j :: 0 <= i <= j < |table| ==> table[i] <= table[j]
  }

  /** In a sorted table a value that is itself an entry lands on the first
      entry equal to it, so a value listed twice shows the first label. */
  lemma BucketOfEntry(table: seq<real>, k: nat)
    requires Sorted(table) && k < |table|
    ensures Bucket(table[k], table, 0) <= k
    ensures table[Bucket(table[k], table, 0)] == table[k]
    ensures forall j :: 0 <= j < Bucket(table[k], table, 0) ==> table[j] < table[k]
  {
  }

  /** The scan as the source writes it, a counting loop; it stops where
      Bucket does. */
  method BucketScan(v: real, table: seq<real>) returns (i: nat)
    requires |table| > 0 && v <= table[|table| - 1]
    ensures i < |table| && v <= table[i]
    ensures forall j :: 0 <= j < i ==> v > table[j]
  {
    i := 0;
    while i < |table| && v > table[i]
      invariant i <= |table|
      invariant forall j :: 0 <= j < i ==> v > table[j]
      decreases |table| - i
    {
      i := i + 1;
    }
  }

  /** "%" when the range covers the whole table, else the two bucket labels. */
  function RangeLabel(lo: real, hi: real, values: seq<real>, labels: seq<string>): (r: string)
    requires |values| == |labels| && |values| > 1
    requires lo <= values[|values| - 1] && hi <= values[|values| - 1]
    requires forall j :: 0 <= j < |values| - 1 ==> values[j] <= values[|values| - 2]
    ensures r == "%" <==> lo <= values[0] && hi > values[|values| - 2]
    ensures r != "%" ==> r == labels[Bucket(lo, values, 0)] + Dash + labels[Bucket(hi, values, 0)]
  {
    var min := Bucket(lo, values, 0);
    var max := Bucket(hi, values, 0);
    if min == 0 && max == |values| - 1 then "%"
    else
      var r := labels[min] + Dash + labels[max];
      assert r[|labels[min]|] == ' ' && r[|labels[min]| + 1] == '\U{2013}';
      assert |r| > 1;
      r
  }

  function ExposureLabel(lo: real, hi: real): (r: string)
    requires lo <= FltMax && hi <= FltMax
    ensures r == "%" <==> lo <= 0.0 && hi > 60.0
  {
    RangeLabel(lo, hi, ExposureValues, ExposureLabels)
  }

  function ApertureLabel(lo: real, hi: real): (r: string)
    requires lo <= FltMax && hi <= FltMax
    ensures r == "%" <==> lo <= 0.0 && hi > 128.0
  {
    RangeLabel(lo, hi, ApertureValues, ApertureLabels)
  }

  /** Both tables of preferences.c are sorted, so BucketOfEntry applies to them. */
  lemma TablesSorted()
    ensures Sorted(ExposureValues) && Sorted(ApertureValues)
  {
    SortedSteps(ExposureValues);
    SortedSteps(ApertureValues);
  }

  /** A table sorted step by step is sorted. */
  lemma {:induction false} SortedSteps(table: seq<real>)
    requires forall i :: 0 <= i < |table| - 1 ==> table[i] <= table[i + 1]
    ensures Sorted(table)
    decreases |table|
  {
    if |table| > 1 {
      SortedSteps(table[1..]);
      forall i, j | 0 <= i <= j < |table| ensures table[i] <= table[j] {
        if 0 < i {
          assert table[1..][i - 1] <= table[1..][j - 1];
        } else if 0 < j {
          assert table[1..][0] <= table[1..][j - 1];
        }
      }
    }
  }

  /** An exposure of exactly 1/1000 s is shown by the first of its two
      equal table entries. */
  lemma ExposureThousandth()
    ensures Bucket(1.0 / 1000.0, ExposureValues, 0) == 4
    ensures ExposureLabels[Bucket(1.0 / 1000.0, ExposureValues, 0)] == "1/1000"
  {
  }

  /** The (size_t) cast of a non-negative float: the whole part. */
  function WholePart(v: real): (r: nat)
    requires v >= 0.0
    ensures r as real <= v < r as real + 1.0
  {
    v.Floor
  }

  /** The (int) cast of a double: truncation toward zero. */
  function Truncate(v: real): (r: int)
    ensures v >= 0.0 ==> r as real <= v < r as real + 1.0
    ensures v < 0.0 ==> r as real - 1.0 < v <= r as real
  {
    if v >= 0.0 then v.Floor else -((-v).Floor)
  }

  /** "%" only for the exact default range 0 to FLT_MAX. */
  function IsoLabel(lo: real, hi: real): (r: string)
    requires lo >= 0.0 && hi >= 0.0
    ensures r == "%" <==> lo == 0.0 && hi == FltMax
    ensures r != "%" ==> r == NatToString(WholePart(lo)) + Dash + NatToString(WholePart(hi))
  {
    if lo == 0.0 && hi == FltMax then "%"
    else
      var r := NatToString(WholePart(lo)) + Dash + NatToString(WholePart(hi));
      assert r[|NatToString(WholePart(lo))|] == ' ';
      r
  }

  /** "%" only for the default range 0 to 1000, the bounds already cast to int. */
  function FocalLabel(lo: int, hi: int): (r: string)
    ensures r == "%" <==> lo == 0 && hi == 1000
    ensures r != "%" ==> r == IntToString(lo) + Dash + IntToString(hi)
  {
    if lo == 0 && hi == 1000 then "%"
    else
      var r := IntToString(lo) + Dash + IntToString(hi);
      assert r[|IntToString(lo)|] == ' ';
      r
  }

  /** A row of data.presets as far as the labels need it. */
  datatype Preset = Preset(name: string, operation: string, maker: string, model: string, lens: string,
                           isoMin: real, isoMax: real, exposureMin: real, exposureMax: real,
                           apertureMin: real, apertureMax: real, focalMin: real, focalMax: real)

  /** The text columns of a preset's row. */
  datatype Columns = Columns(maker: string, model: string, lens: string, iso: string, exposure: string,
                             aperture: string, focal: string)

  /** The float ranges the labels can be computed for. */
  predicate InRange(p: Preset)
  {
    0.0 <= p.isoMin && 0.0 <= p.isoMax &&
    p.exposureMin <= FltMax && p.exposureMax <= FltMax &&
    p.apertureMin <= FltMax && p.apertureMax <= FltMax
  }

  /** The columns of one preset; `autoapplies` is whether its module can
      apply presets automatically. Modules that cannot show empty columns. */
  function PresetColumns(p: Preset, autoapplies: bool): (r: Columns)
    requires InRange(p)
    ensures !autoapplies ==> r == Columns("", "", "", "", "", "", "")
    ensures autoapplies ==> r.maker == p.maker && r.model == p.model && r.lens == p.lens
    ensures autoapplies ==> (r.exposure == "%" <==> p.exposureMin <= 0.0 && p.exposureMax > 60.0)
    ensures autoapplies ==> (r.aperture == "%" <==> p.apertureMin <= 0.0 && p.apertureMax > 128.0)
    ensures autoapplies ==> (r.iso == "%" <==> p.isoMin == 0.0 && p.isoMax == FltMax)
    ensures autoapplies ==> (r.focal == "%" <==> Truncate(p.focalMin) == 0 && Truncate(p.focalMax) == 1000)
  {
    if !autoapplies then Columns("", "", "", "", "", "", "")
    else Columns(p.maker, p.model, p.lens, IsoLabel(p.isoMin, p.isoMax),
                 ExposureLabel(p.exposureMin, p.exposureMax), ApertureLabel(p.apertureMin, p.apertureMax),
                 FocalLabel(Truncate(p.focalMin), Truncate(p.focalMax)))
  }

  /** A header row for an operation and the presets listed under it. */
  datatype Group = Group(operation: string, presets: seq<Preset>)

  /** One preset joins the header rows built so far: it goes under the last
      header when that header is for the same operation, under a new header
      otherwise. */
  function AddPreset(gs: seq<Group>, p: Preset): (r: seq<Group>)
    ensures |r| == |gs| || |r| == |gs| + 1
    ensures |r| > 0 && r[|r| - 1].operation == p.operation
    ensures forall i :: 0 <= i < |r| - 1 ==> r[i] == gs[i]
  {
    if |gs| > 0 && gs[|gs| - 1].operation == p.operation then
      gs[|gs| - 1 := Group(p.operation, gs[|gs| - 1].presets + [p])]
    else gs + [Group(p.operation, [p])]
  }

  /** The header rows of tree_insert_presets: the presets arrive ordered by
      operation, and a new header starts whenever the operation differs from
      the previous preset's. */
  function GroupPresets(ps: seq<Preset>): (r: seq<Group>)
    ensures |ps| == 0 <==> |r| == 0
    ensures forall i :: 0 <= i < |r| ==> |r[i].presets| > 0
    ensures forall i, j :: 0 <= i < |r| && 0 <= j < |r[i].presets| ==> r[i].presets[j].operation == r[i].operation
    ensures forall i :: 0 <= i < |r| - 1 ==> r[i].operation != r[i + 1].operation
    ensures |r| > 0 ==> r[|r| - 1].operation == ps[|ps| - 1].operation
    decreases |ps|
  {
    if |ps| == 0 then []
    else AddPreset(GroupPresets(ps[..|ps| - 1]), ps[|ps| - 1])
  }

  function Flatten(gs: seq<Group>): seq<Preset>
  {
    if |gs| == 0 then [] else Flatten(gs[..|gs| - 1]) + gs[|gs| - 1].presets
  }

  /** Grouping loses and reorders nothing: reading the groups in order gives
      back the presets. */
  lemma {:induction false} GroupPresetsFlatten(ps: seq<Preset>)
    ensures Flatten(GroupPresets(ps)) == ps
    decreases |ps|
  {
    if |ps| > 0 {
      GroupPresetsFlatten(ps[..|ps| - 1]);
      FlattenAddLast(ps, GroupPresets(ps[..|ps| - 1]));
    }
  }

  lemma FlattenAddLast(ps: seq<Preset>, gs: seq<Group>)
    requires |ps| > 0 && Flatten(gs) == ps[..|ps| - 1]
    ensures Flatten(AddPreset(gs, ps[|ps| - 1])) == ps
  {
    FlattenAddPreset(gs, ps[|ps| - 1]);
    assert ps == ps[..|ps| - 1] + [ps[|ps| - 1]];
  }

  /** One more preset lands at the end of the flattened groups. */
  lemma FlattenAddPreset(gs: seq<Group>, p: Preset)
    ensures Flatten(AddPreset(gs, p)) == Flatten(gs) + [p]
  {
    if |gs| > 0 && gs[|gs| - 1].operation == p.operation {
      FlattenExtendLast(gs, p);
    } else {
      FlattenSnoc(gs, Group(p.operation, [p]));
    }
  }

  lemma FlattenSnoc(gs: seq<Group>, g: Group)
    ensures Flatten(gs + [g]) == Flatten(gs) + g.presets
  {
    assert (gs + [g])[..|gs|] == gs;
  }

  /** Adding a preset to the last group appends it to the flattened list. */
  lemma FlattenExtendLast(gs: seq<Group>, p: Preset)
    requires |gs| > 0
    ensures Flatten(gs[|gs| - 1 := Group(gs[|gs| - 1].operation, gs[|gs| - 1].presets + [p])]) == Flatten(gs) + [p]
  {
    var n := |gs|;
    var hs := gs[n - 1 := Group(gs[n - 1].operation, gs[n - 1].presets + [p])];
    assert hs[..n - 1] == gs[..n - 1];
    assert Flatten(hs) == Flatten(gs[..n - 1]) + (gs[n - 1].presets + [p]);
    assert Flatten(gs) == Flatten(gs[..n - 1]) + gs[n - 1].presets;
  }
}
