/** Going from a vector to an image through a map of pixel numbers, and back by averaging over zones. */
module Remap {

  // ----- sums over the pixels of a zone

  /** Sum of the image over those of the first n pixels whose map value is z. */
  function ZoneSum(zone: seq<int>, img: seq<real>, z: int, n: nat): real
    requires n <= |zone| && n <= |img|
  {
    if n == 0 then 0.0 else ZoneSum(zone, img, z, n - 1) + if zone[n - 1] == z then img[n - 1] else 0.0
  }

  function ZoneCount(zone: seq<int>, z: int, n: nat): (c: nat)
    requires n <= |zone|
    ensures c <= n
  {
    if n == 0 then 0 else ZoneCount(zone, z, n - 1) + if zone[n - 1] == z then 1 else 0
  }

  /** Sum over all pixels that are in some zone below x. */
  function MappedSum(zone: seq<int>, img: seq<real>, x: int, n: nat): real
    requires n <= |zone| && n <= |img|
  {
    if n == 0 then 0.0 else MappedSum(zone, img, x, n - 1) + if 0 <= zone[n - 1] < x then img[n - 1] else 0.0
  }

  /** The number of zones: one more than the largest map value. */
  function Zones(zone: seq<int>, n: nat): (x: nat)
    requires n <= |zone|
    ensures x >= 1
  {
    if n == 0 then 1
    else if zone[n - 1] + 1 > Zones(zone, n - 1) then zone[n - 1] + 1
    else Zones(zone, n - 1)
  }

  lemma {:induction false} ZonesBound(zone: seq<int>, n: nat)
    requires n <= |zone|
    ensures forall i :: 0 <= i < n ==> zone[i] < Zones(zone, n)
  {
    if n > 0 { ZonesBound(zone, n - 1); }
  }

  /** Some pixel has the last zone, unless no map value is positive. */
  lemma {:induction false} ZonesReached(zone: seq<int>, n: nat)
    requires n <= |zone|
    ensures Zones(zone, n) == 1 || exists i :: 0 <= i < n && zone[i] == Zones(zone, n) - 1
  {
    if n > 0 { ZonesReached(zone, n - 1); }
  }

  // ----- from a vector to an image

  /** Every pixel whose map value is an index of the vector shows that element; the others keep theirs. */
  function Remapped(zone: seq<int>, v: seq<real>, before: seq<real>): (out: seq<real>)
    requires |before| == |zone|
    ensures |out| == |zone|
  {
    seq(|zone|, i requires 0 <= i < |zone| => if 0 <= zone[i] < |v| then v[zone[i]] else before[i])
  }

  /** The table of the pixels whose value is in range, in order: the first n pixels. */
  function Listed(zone: seq<int>, bound: int, n: nat): seq<nat>
    requires n <= |zone|
  {
    if n == 0 then [] else Listed(zone, bound, n - 1) + if 0 <= zone[n - 1] < bound then [n - 1] else []
  }

  predicate InRange(zone: seq<int>, bound: int, i: nat) {
    i < |zone| && 0 <= zone[i] < bound
  }

  lemma {:induction false} ListedInRange(zone: seq<int>, bound: int, n: nat)
    requires n <= |zone|
    ensures forall p :: 0 <= p < |Listed(zone, bound, n)| ==> InRange(zone, bound, Listed(zone, bound, n)[p])
  {
    if n > 0 { ListedInRange(zone, bound, n - 1); }
  }

  /** A pixel in range is listed, behind the pixels listed before it. */
  lemma {:induction false} ListedPosition(zone: seq<int>, bound: int, i: nat, n: nat)
    requires i < n <= |zone| && InRange(zone, bound, i)
    ensures |Listed(zone, bound, i)| < |Listed(zone, bound, n)| && Listed(zone, bound, n)[|Listed(zone, bound, i)|] == i
  {
    if i < n - 1 { ListedPosition(zone, bound, i, n - 1); }
  }

  lemma {:induction false} ListedGrows(zone: seq<int>, bound: int, m: nat, n: nat)
    requires m <= n <= |zone|
    ensures |Listed(zone, bound, m)| <= |Listed(zone, bound, n)|
  {
    if m < n { ListedGrows(zone, bound, m, n - 1); }
  }

  /** First pass: how many pixels are in range. */
  method CountPixels(zone: array<int>, bound: int) returns (nbpix: nat)
    ensures nbpix == |Listed(zone[..], bound, zone.Length)|
  {
    nbpix := 0;
    for ii := 0 to zone.Length
      invariant nbpix == |Listed(zone[..], bound, ii)|
    {
      if zone[ii] > -1 && zone[ii] < bound {
        nbpix := nbpix + 1;
      }
    }
  }

  /** Second pass: the tables of output and input pixels. */
  method FillTables(zone: array<int>, bound: int, nbpix: nat) returns (outIndex: array<nat>, inIndex: array<int>)
    requires nbpix == |Listed(zone[..], bound, zone.Length)|
    ensures fresh(outIndex) && fresh(inIndex) && outIndex.Length == inIndex.Length == nbpix
    ensures outIndex[..] == Listed(zone[..], bound, zone.Length)
    ensures forall p :: 0 <= p < nbpix ==> outIndex[p] < zone.Length && inIndex[p] == zone[outIndex[p]]
  {
    outIndex := new nat[nbpix];
    inIndex := new int[nbpix];
    ghost var z := zone[..];
    var k := 0;
    for ii := 0 to zone.Length
      invariant k == |Listed(z, bound, ii)| <= nbpix
      invariant outIndex[..k] == Listed(z, bound, ii)
      invariant forall p :: 0 <= p < k ==> outIndex[p] < zone.Length && inIndex[p] == zone[outIndex[p]]
    {
      ListedGrows(z, bound, ii + 1, zone.Length);
      if zone[ii] > -1 && zone[ii] < bound {
        outIndex[k] := ii;
        inIndex[k] := zone[ii];
        k := k + 1;
      }
    }
    assert outIndex[..k] == outIndex[..];
  }

  /** Pixel remap: one iteration. */
  method PixRemap(v: array<real>, zone: array<int>, out: array<real>)
    requires out.Length == zone.Length && out != v
    modifies out
    ensures out[..] == Remapped(zone[..], v[..], old(out[..]))
    ensures forall i :: 0 <= i < out.Length ==> out[i] == if 0 <= zone[i] < v.Length then v[zone[i]] else old(out[i])
  {
    var nbpix := CountPixels(zone, v.Length);
    var outIndex, inIndex := FillTables(zone, v.Length, nbpix);
    ghost var list := Listed(zone[..], v.Length, zone.Length);
    ListedInRange(zone[..], v.Length, zone.Length);
    Gather(v, zone[..], out, outIndex, inIndex, list);
    forall i | 0 <= i < out.Length ensures out[i] == Remapped(zone[..], v[..], old(out[..]))[i] {
      if InRange(zone[..], v.Length, i) {
        ListedPosition(zone[..], v.Length, i, zone.Length);
        assert Shows(v[..], zone[..], out[..], list[|Listed(zone[..], v.Length, i)|]);
      }
    }
  }

  /** Copies along the table. */
  method Gather(v: array<real>, ghost zone: seq<int>, out: array<real>, outIndex: array<nat>, inIndex: array<int>, ghost list: seq<nat>)
    requires out.Length == |zone| && out != v && outIndex[..] == list && inIndex.Length == |list|
    requires forall p :: 0 <= p < |list| ==> InRange(zone, v.Length, list[p]) && inIndex[p] == zone[list[p]]
    modifies out
    ensures forall p :: 0 <= p < |list| ==> Shows(v[..], zone, out[..], list[p])
    ensures forall i :: 0 <= i < out.Length && !InRange(zone, v.Length, i) ==> out[i] == old(out[i])
  {
    for pixi := 0 to outIndex.Length
      modifies out
      invariant forall p :: 0 <= p < pixi ==> Shows(v[..], zone, out[..], list[p])
      invariant forall i :: 0 <= i < out.Length && !InRange(zone, v.Length, i) ==> out[i] == old(out[i])
    {
      assert outIndex[pixi] == list[pixi] && InRange(zone, v.Length, list[pixi]);
      ghost var before := out[..];
      out[outIndex[pixi]] := v[inIndex[pixi]];
      forall p | 0 <= p < pixi + 1 ensures Shows(v[..], zone, out[..], list[p]) {
        if p < pixi { assert Shows(v[..], zone, before, list[p]); }
      }
    }
  }

  ghost predicate Shows(v: seq<real>, zone: seq<int>, out: seq<real>, i: nat) {
    i < |out| && InRange(zone, |v|, i) && out[i] == v[zone[i]]
  }

  // ----- from an image to a vector

  /** The number of pixels of a zone, or 1 to avoid a division by zero. */
  function Divisor(zone: seq<int>, z: int): (d: nat)
    ensures d >= 1
  {
    if ZoneCount(zone, z, |zone|) == 0 then 1 else ZoneCount(zone, z, |zone|)
  }

  /** The vector after one iteration: what was there and the sum over the zone, divided. */
  function Unmapped(zone: seq<int>, img: seq<real>, before: seq<real>): (v: seq<real>)
    requires |zone| <= |img|
    ensures |v| == |before|
  {
    seq(|before|, z requires 0 <= z < |before| => (before[z] + ZoneSum(zone, img, z, |zone|)) / (Divisor(zone, z) as real))
  }

  method CountZonesOf(zone: array<int>) returns (x: nat)
    ensures x == Zones(zone[..], zone.Length)
  {
    x := 0;
    for ii := 0 to zone.Length
      invariant x + 1 == Zones(zone[..], ii)
    {
      if zone[ii] > x {
        x := zone[ii];
      }
    }
    x := x + 1;
  }

  /** The pixels counted against the size of the image are at least those listed against the number of
      zones, and the tables are long enough, exactly when no map value reaches the size of the image. */
  lemma {:induction false} TablesFit(zone: seq<int>, insize: nat, n: nat)
    requires n <= |zone|
    ensures |Listed(zone, Zones(zone, |zone|), n)| <= |Listed(zone, insize, n)| <==> (forall i :: 0 <= i < n ==> zone[i] < insize)
  {
    ZonesBound(zone, |zone|);
    if n > 0 {
      TablesFit(zone, insize, n - 1);
      ListedMost(zone, Zones(zone, |zone|), insize, n - 1);
    }
  }

  lemma {:induction false} ListedMost(zone: seq<int>, x: nat, insize: nat, n: nat)
    requires n <= |zone| && forall i :: 0 <= i < |zone| ==> zone[i] < x
    ensures |Listed(zone, insize, n)| <= |Listed(zone, x, n)|
  {
    if n > 0 { ListedMost(zone, x, insize, n - 1); }
  }

  /** The tables of image and vector pixels, and how many pixels each zone has. */
  method FillZones(zone: array<int>, x: nat, size: nat) returns (imgIndex: array<nat>, vecIndex: array<nat>, pixcnt: array<nat>, nbpix: nat)
    requires |Listed(zone[..], x, zone.Length)| <= size
    ensures fresh(imgIndex) && fresh(vecIndex) && fresh(pixcnt) && pixcnt.Length == x && imgIndex.Length == vecIndex.Length == size
    ensures pixcnt != imgIndex && pixcnt != vecIndex
    ensures nbpix <= size && imgIndex[..nbpix] == Listed(zone[..], x, zone.Length)
    ensures forall p :: 0 <= p < nbpix ==> InRange(zone[..], x, imgIndex[p]) && vecIndex[p] == zone[imgIndex[p]]
    ensures forall z :: 0 <= z < x ==> pixcnt[z] == ZoneCount(zone[..], z, zone.Length)
  {
    imgIndex := new nat[size];
    vecIndex := new nat[size];
    pixcnt := new nat[x](_ => 0);
    nbpix := 0;
    for ii := 0 to zone.Length
      invariant nbpix == |Listed(zone[..], x, ii)| <= size
      invariant imgIndex[..nbpix] == Listed(zone[..], x, ii)
      invariant forall p :: 0 <= p < nbpix ==> InRange(zone[..], x, imgIndex[p]) && vecIndex[p] == zone[imgIndex[p]]
      invariant forall z :: 0 <= z < x ==> pixcnt[z] == ZoneCount(zone[..], z, ii)
    {
      ListedGrows(zone[..], x, ii + 1, zone.Length);
      var pixindex := zone[ii];
      if pixindex > -1 && pixindex < x {
        imgIndex[nbpix] := ii;
        vecIndex[nbpix] := pixindex;
        pixcnt[pixindex] := pixcnt[pixindex] + 1;
        nbpix := nbpix + 1;
      }
    }
  }

  /** The sum over the first p listed pixels that are in zone z. */
  function ListSum(zone: seq<int>, img: seq<real>, list: seq<nat>, z: int, p: nat): real
    requires p <= |list|
  {
    if p == 0 then 0.0
    else
      ListSum(zone, img, list, z, p - 1) +
      if list[p - 1] < |zone| && list[p - 1] < |img| && zone[list[p - 1]] == z then img[list[p - 1]] else 0.0
  }

  /** Adding up along the table adds up over the zone. */
  lemma {:induction false} ListSumIsZoneSum(zone: seq<int>, img: seq<real>, x: nat, z: nat, n: nat)
    requires n <= |zone| <= |img| && z < x
    ensures ListSum(zone, img, Listed(zone, x, n), z, |Listed(zone, x, n)|) == ZoneSum(zone, img, z, n)
  {
    if n > 0 {
      ListSumIsZoneSum(zone, img, x, z, n - 1);
      var l := Listed(zone, x, n - 1);
      if InRange(zone, x, n - 1) {
        ListSumPrefix(zone, img, l, l + [n - 1], z, |l|);
        assert Listed(zone, x, n) == l + [n - 1];
      } else {
        assert Listed(zone, x, n) == l;
      }
    }
  }

  lemma {:induction false} ListSumPrefix(zone: seq<int>, img: seq<real>, l: seq<nat>, l': seq<nat>, z: int, p: nat)
    requires p <= |l| <= |l'| && l == l'[..|l|]
    ensures ListSum(zone, img, l, z, p) == ListSum(zone, img, l', z, p)
  {
    if p > 0 { ListSumPrefix(zone, img, l, l', z, p - 1); }
  }

  /** Adds the listed pixels to their zones. */
  method Accumulate(inp: array<real>, out: array<real>, imgIndex: array<nat>, vecIndex: array<nat>, nbpix: nat,
                    ghost zone: seq<int>, ghost list: seq<nat>)
    requires out != inp && nbpix <= imgIndex.Length == vecIndex.Length && |zone| <= inp.Length && list == imgIndex[..nbpix]
    requires forall p :: 0 <= p < nbpix ==> InRange(zone, out.Length, list[p]) && vecIndex[p] == zone[list[p]]
    modifies out
    ensures forall z :: 0 <= z < out.Length ==> out[z] == old(out[z]) + ListSum(zone, inp[..], list, z, nbpix)
  {
    for pixi := 0 to nbpix
      modifies out
      invariant forall z :: 0 <= z < out.Length ==> out[z] == old(out[z]) + ListSum(zone, inp[..], list, z, pixi)
    {
      assert imgIndex[pixi] == list[pixi] && InRange(zone, out.Length, list[pixi]);
      out[vecIndex[pixi]] := out[vecIndex[pixi]] + inp[imgIndex[pixi]];
    }
  }

  /** A zone without pixels is divided by 1. */
  method AvoidZero(pixcnt: array<nat>)
    modifies pixcnt
    ensures forall z :: 0 <= z < pixcnt.Length ==> pixcnt[z] == if old(pixcnt[z]) == 0 then 1 else old(pixcnt[z])
  {
    for z := 0 to pixcnt.Length
      invariant forall y :: 0 <= y < z ==> pixcnt[y] == if old(pixcnt[y]) == 0 then 1 else old(pixcnt[y])
      invariant forall y :: z <= y < pixcnt.Length ==> pixcnt[y] == old(pixcnt[y])
    {
      if pixcnt[z] == 0 {
        pixcnt[z] := 1;
      }
    }
  }

  method DivideAll(out: array<real>, pixcnt: array<nat>)
    requires out.Length == pixcnt.Length && forall z :: 0 <= z < pixcnt.Length ==> pixcnt[z] > 0
    modifies out
    ensures forall z :: 0 <= z < out.Length ==> out[z] == old(out[z]) / (pixcnt[z] as real)
  {
    for z := 0 to out.Length
      modifies out
      invariant forall y :: 0 <= y < z ==> out[y] == old(out[y]) / (pixcnt[y] as real)
      invariant forall y :: z <= y < out.Length ==> out[y] == old(out[y])
    {
      out[z] := out[z] / (pixcnt[z] as real);
    }
  }

  /** Pixel unmap: one iteration. */
  method PixUnmap(inp: array<real>, zone: array<int>, out: array<real>)
    requires out != inp && zone.Length <= inp.Length && out.Length == Zones(zone[..], zone.Length)
    requires forall i :: 0 <= i < zone.Length ==> zone[i] < inp.Length
    modifies out
    ensures out[..] == Unmapped(zone[..], inp[..], old(out[..]))
  {
    var x := CountZonesOf(zone);
    var size := CountPixels(zone, inp.Length);
    TablesFit(zone[..], inp.Length, zone.Length);
    var imgIndex, vecIndex, pixcnt, nbpix := FillZones(zone, x, size);
    ghost var list := Listed(zone[..], x, zone.Length);
    ListedInRange(zone[..], x, zone.Length);
    AvoidZero(pixcnt);
    Accumulate(inp, out, imgIndex, vecIndex, nbpix, zone[..], list);
    DivideAll(out, pixcnt);
    forall z | 0 <= z < x ensures out[z] == Unmapped(zone[..], inp[..], old(out[..]))[z] {
      ListSumIsZoneSum(zone[..], inp[..], x, z, zone.Length);
    }
  }

  // ----- what one pixel contributes

  /** The first n pixels that are in zone z. */
  ghost function PixelsOf(zone: seq<int>, z: int, n: nat): set<int>
    requires n <= |zone|
  {
    set i: int | 0 <= i < n && zone[i] == z
  }

  lemma {:induction false} CountIsSize(zone: seq<int>, z: int, n: nat)
    requires n <= |zone|
    ensures ZoneCount(zone, z, n) == |PixelsOf(zone, z, n)|
  {
    if n > 0 {
      CountIsSize(zone, z, n - 1);
      assert PixelsOf(zone, z, n) == PixelsOf(zone, z, n - 1) + if zone[n - 1] == z then {n - 1} else {};
    }
  }

  lemma {:induction false} SumMoves(zone: seq<int>, img: seq<real>, p: nat, d: real, z: int, n: nat)
    requires n <= |zone| <= |img| && p < |zone|
    ensures ZoneSum(zone, img[p := img[p] + d], z, n) == ZoneSum(zone, img, z, n) + if p < n && zone[p] == z then d else 0.0
  {
    if n > 0 { SumMoves(zone, img, p, d, z, n - 1); }
  }

  /** Making one pixel brighter by d adds d, divided by the number of pixels of its zone, to the element of that zone, and
      changes no other. */
  lemma {:induction false} PixelMovesItsZone(zone: seq<int>, img: seq<real>, before: seq<real>, p: nat, d: real, z: nat)
    requires |zone| <= |img| && p < |zone| && z < |before|
    ensures Unmapped(zone, img[p := img[p] + d], before)[z] ==
            Unmapped(zone, img, before)[z] +
            if zone[p] == z && |PixelsOf(zone, z, |zone|)| > 0 then d / (|PixelsOf(zone, z, |zone|)| as real) else 0.0
    ensures zone[p] == z ==> |PixelsOf(zone, z, |zone|)| > 0
  {
    SumMoves(zone, img, p, d, z, |zone|);
    CountIsSize(zone, z, |zone|);
    if zone[p] == z { assert p in PixelsOf(zone, z, |zone|); }
    AddsUp(before[z] + ZoneSum(zone, img, z, |zone|), d, Divisor(zone, z) as real);
  }

  lemma {:induction false} AddsUp(x: real, d: real, c: real)
    requires c != 0.0
    ensures (x + d) / c == x / c + d / c
  {
  }

  /** A black image leaves what was there, divided by the number of pixels, or as it was in a zone without pixels. */
  lemma {:induction false} BlackImage(zone: seq<int>, img: seq<real>, before: seq<real>, z: nat)
    requires |zone| <= |img| && z < |before| && forall i :: 0 <= i < |zone| && zone[i] == z ==> img[i] == 0.0
    ensures var n := |PixelsOf(zone, z, |zone|)|;
            Unmapped(zone, img, before)[z] == if n == 0 then before[z] else before[z] / (n as real)
  {
    BlackSum(zone, img, z, |zone|);
    CountIsSize(zone, z, |zone|);
  }

  lemma {:induction false} BlackSum(zone: seq<int>, img: seq<real>, z: int, n: nat)
    requires n <= |zone| <= |img| && forall i :: 0 <= i < |zone| && zone[i] == z ==> img[i] == 0.0
    ensures ZoneSum(zone, img, z, n) == 0.0
  {
    if n > 0 { BlackSum(zone, img, z, n - 1); }
  }

  // ----- there and back

  lemma {:induction false} Cancel(c: real, v: real)
    requires c != 0.0
    ensures (c * v) / c == v && c * (v / c) == v
  {
  }

  /** A remapped image holds v[z] in all of zone z. */
  lemma {:induction false} RemappedSum(zone: seq<int>, v: seq<real>, before: seq<real>, z: nat, n: nat)
    requires |before| == |zone| && z < |v| && n <= |zone|
    ensures ZoneSum(zone, Remapped(zone, v, before), z, n) == (ZoneCount(zone, z, n) as real) * v[z]
  {
    if n > 0 { RemappedSum(zone, v, before, z, n - 1); }
  }

  /** Main result: unmapping a remapped vector gives back the elements whose zones occur and 0 elsewhere, so
      it is the identity exactly when no other element differs from 0. */
  lemma {:induction false} UnmapAfterRemap(zone: seq<int>, v: seq<real>, before: seq<real>)
    requires |before| == |zone| && |v| == Zones(zone, |zone|)
    ensures var back := Unmapped(zone, Remapped(zone, v, before), Zeros(|v|));
            && (forall z :: 0 <= z < |v| ==> back[z] == if ZoneCount(zone, z, |zone|) > 0 then v[z] else 0.0)
            && (back == v <==> forall z :: 0 <= z < |v| && ZoneCount(zone, z, |zone|) == 0 ==> v[z] == 0.0)
  {
    var back := Unmapped(zone, Remapped(zone, v, before), Zeros(|v|));
    forall z | 0 <= z < |v| ensures back[z] == if ZoneCount(zone, z, |zone|) > 0 then v[z] else 0.0 {
      BackAt(zone, v, before, z);
    }
  }

  lemma {:induction false} BackAt(zone: seq<int>, v: seq<real>, before: seq<real>, z: nat)
    requires |before| == |zone| && z < |v|
    ensures Unmapped(zone, Remapped(zone, v, before), Zeros(|v|))[z] == if ZoneCount(zone, z, |zone|) > 0 then v[z] else 0.0
  {
    RemappedSum(zone, v, before, z, |zone|);
    var c := ZoneCount(zone, z, |zone|);
    if c > 0 { Cancel(c as real, v[z]); }
  }

  function Zeros(n: nat): (s: seq<real>)
    ensures |s| == n && forall i :: 0 <= i < n ==> s[i] == 0.0
  {
    seq(n, i => 0.0)
  }

  /** Every zone occurs: then the two are inverse to each other. */
  lemma {:induction false} UnmapInvertsRemap(zone: seq<int>, v: seq<real>, before: seq<real>)
    requires |before| == |zone| && |v| == Zones(zone, |zone|)
    requires forall z :: 0 <= z < |v| ==> ZoneCount(zone, z, |zone|) > 0
    ensures Unmapped(zone, Remapped(zone, v, before), Zeros(|v|)) == v
  {
    UnmapAfterRemap(zone, v, before);
  }

  // ----- conservation

  /** Count times mean, added over the zones below x. */
  function Weighted(zone: seq<int>, v: seq<real>, x: nat): real
    requires x <= |v|
  {
    if x == 0 then 0.0 else Weighted(zone, v, x - 1) + (ZoneCount(zone, x - 1, |zone|) as real) * v[x - 1]
  }

  lemma {:induction false} OneMoreZone(zone: seq<int>, img: seq<real>, x: nat, n: nat)
    requires n <= |zone| && n <= |img|
    ensures MappedSum(zone, img, x + 1, n) == MappedSum(zone, img, x, n) + ZoneSum(zone, img, x, n)
  {
    if n > 0 { OneMoreZone(zone, img, x, n - 1); }
  }

  lemma {:induction false} NoZone(zone: seq<int>, img: seq<real>, n: nat)
    requires n <= |zone| && n <= |img|
    ensures MappedSum(zone, img, 0, n) == 0.0
  {
    if n > 0 { NoZone(zone, img, n - 1); }
  }

  lemma {:induction false} EmptyZone(zone: seq<int>, img: seq<real>, z: int, n: nat)
    requires n <= |zone| && n <= |img|
    ensures ZoneCount(zone, z, n) == 0 ==> ZoneSum(zone, img, z, n) == 0.0
  {
    if n > 0 { EmptyZone(zone, img, z, n - 1); }
  }

  /** Count times value is the sum over the zone. */
  ghost predicate Averages(zone: seq<int>, img: seq<real>, v: seq<real>, z: nat)
    requires |zone| <= |img| && z < |v|
  {
    (ZoneCount(zone, z, |zone|) as real) * v[z] == ZoneSum(zone, img, z, |zone|)
  }

  lemma {:induction false} ZoneMean(zone: seq<int>, img: seq<real>, len: nat, z: nat)
    requires |zone| <= |img| && z < len
    ensures Averages(zone, img, Unmapped(zone, img, Zeros(len)), z)
  {
    EmptyZone(zone, img, z, |zone|);
    var c, s := ZoneCount(zone, z, |zone|), ZoneSum(zone, img, z, |zone|);
    var d := Divisor(zone, z) as real;
    assert Unmapped(zone, img, Zeros(len))[z] == (0.0 + s) / d == s / d;
    if c > 0 { Cancel(c as real, s); }
  }

  lemma {:induction false} AveragesAddUp(zone: seq<int>, img: seq<real>, v: seq<real>, x: nat)
    requires |zone| <= |img| && x <= |v| && forall z :: 0 <= z < x ==> Averages(zone, img, v, z)
    ensures Weighted(zone, v, x) == MappedSum(zone, img, x, |zone|)
  {
    if x == 0 {
      NoZone(zone, img, |zone|);
    } else {
      AveragesAddUp(zone, img, v, x - 1);
      OneMoreZone(zone, img, x - 1, |zone|);
      assert Averages(zone, img, v, x - 1);
    }
  }

  /** Main result: unmapping conserves: count times mean, added over the zones, is the sum over the pixels
      that have a zone. */
  lemma {:induction false} UnmapConserves(zone: seq<int>, img: seq<real>, len: nat)
    requires |zone| <= |img|
    ensures Weighted(zone, Unmapped(zone, img, Zeros(len)), len) == MappedSum(zone, img, len, |zone|)
  {
    var v := Unmapped(zone, img, Zeros(len));
    forall z | 0 <= z < len ensures Averages(zone, img, v, z) {
      ZoneMean(zone, img, len, z);
    }
    AveragesAddUp(zone, img, v, len);
  }
}
