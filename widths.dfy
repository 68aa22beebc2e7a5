/**
  Width selection of the image component: the configured sizes, sorted in place when the
  module loads; `getWidths`, which picks the widths an image is offered in; `getInt`; and
  `generateImgAttrs`, which turns the widths into the `src`, `srcset` and `sizes` attributes.
*/
module Widths {
  import opened Wrappers
  import opened JsText

  // ---------------------------------------------------------------------------------------------
  // The sorted size lists

  predicate Sorted(s: seq<int>) {
    forall k, l :: 0 <= k < l < |s| ==> s[k] <= s[l]
  }

  /** The first `n` elements are sorted. */
  predicate SortedPrefix(s: seq<int>, n: int)
    requires 0 <= n <= |s|
  {
    forall k, l :: 0 <= k < l < n ==> s[k] <= s[l]
  }

  /**
    While `s[j]` moves left through `s[..i + 1]`: the prefix is sorted once `s[j]` is left out,
    and `s[j]` is at most everything to its right.
  */
  predicate Inserting(s: seq<int>, j: int, i: int)
    requires 0 <= j <= i < |s|
  {
    && (forall k, l :: 0 <= k < l <= i && k != j && l != j ==> s[k] <= s[l])
    && (forall l :: j < l <= i ==> s[j] <= s[l])
  }

  /** `t` holds the same elements as `s`, as many times each. */
  predicate Permutes(s: seq<int>, t: seq<int>) {
    multiset(s) == multiset(t)
  }

  /** Exchanging two elements keeps the elements, starting from any permutation of `t`. */
  lemma SwapKeepsElements(s: seq<int>, i: int, j: int, t: seq<int>)
    requires 0 <= i < |s| && 0 <= j < |s| && Permutes(s, t)
    ensures Permutes(s[i := s[j]][j := s[i]], t)
  {
  }

  /** Swapping `s[j]` with a larger left neighbour moves the insertion one step left. */
  lemma InsertingStep(s: seq<int>, j: int, i: int)
    requires 0 < j <= i < |s| && Inserting(s, j, i) && s[j - 1] > s[j]
    ensures Inserting(s[j - 1 := s[j]][j := s[j - 1]], j - 1, i)
  {
  }

  /** The insertion is done once `s[j]` is at the front or not smaller than its left neighbour. */
  lemma InsertingDone(s: seq<int>, j: int, i: int)
    requires 0 <= j <= i < |s| && Inserting(s, j, i) && (j == 0 || s[j - 1] <= s[j])
    ensures SortedPrefix(s, i + 1)
  {
  }

  /** Exchanges `a[j - 1]` and `a[j]`. */
  method SwapLeft(a: array<int>, j: int)
    requires 0 < j < a.Length
    modifies a
    ensures a[..] == old(a[..])[j - 1 := old(a[j])][j := old(a[j - 1])]
  {
    a[j - 1], a[j] := a[j], a[j - 1];
  }

  /** One step of the insertion sort: `a[i]` moves left until the prefix `a[..i + 1]` is sorted. */
  method Insert(a: array<int>, i: int)
    requires 0 <= i < a.Length && SortedPrefix(a[..], i)
    modifies a
    ensures SortedPrefix(a[..], i + 1)
    ensures Permutes(a[..], old(a[..]))
  {
    ghost var orig := a[..];
    ghost var cur := orig;
    var j := i;
    while j > 0 && a[j - 1] > a[j]
      invariant 0 <= j <= i && |cur| == a.Length
      invariant a[..] == cur
      invariant Inserting(cur, j, i)
      invariant Permutes(cur, orig)
    {
      assert cur[j - 1] > cur[j];
      SwapKeepsElements(cur, j - 1, j, orig);
      InsertingStep(cur, j, i);
      SwapLeft(a, j);
      cur := cur[j - 1 := cur[j]][j := cur[j - 1]];
      j := j - 1;
    }
    InsertingDone(cur, j, i);
  }

  /** `a.sort((a, b) => a - b)`: the array sorted ascending in place (an insertion sort). */
  method SortAscending(a: array<int>)
    modifies a
    ensures Sorted(a[..])
    ensures multiset(a[..]) == multiset(old(a[..]))
  {
    var i := 0;
    while i < a.Length
      invariant 0 <= i <= a.Length
      invariant SortedPrefix(a[..], i)
      invariant multiset(a[..]) == multiset(old(a[..]))
    {
      Insert(a, i);
      i := i + 1;
    }
    assert a[..] == a[..a.Length];
  }

  /**
    The module's initialisation: `allSizes` is the device sizes followed by the image sizes,
    and both it and `configDeviceSizes` are then sorted ascending in place.
  */
  method InitSizes(deviceSizes: seq<int>, imageSizes: seq<int>) returns (configDeviceSizes: seq<int>, allSizes: seq<int>)
    ensures Sorted(configDeviceSizes) && multiset(configDeviceSizes) == multiset(deviceSizes)
    ensures Sorted(allSizes) && multiset(allSizes) == multiset(deviceSizes + imageSizes)
  {
    var merged := deviceSizes + imageSizes;
    var all := new int[|merged|](i requires 0 <= i < |merged| => merged[i]);
    var device := new int[|deviceSizes|](i requires 0 <= i < |deviceSizes| => deviceSizes[i]);
    assert all[..] == merged;
    assert device[..] == deviceSizes;
    SortAscending(device);
    SortAscending(all);
    configDeviceSizes := device[..];
    allSizes := all[..];
  }

  lemma SortedTail(s: seq<int>)
    requires |s| > 0 && Sorted(s)
    ensures Sorted(s[1..])
  {
    assert forall k :: 0 <= k < |s| - 1 ==> s[1..][k] == s[k + 1];
  }

  /** The head of a sorted list is at most every element of it. */
  lemma SortedHeadIsLeast(s: seq<int>, x: int)
    requires |s| > 0 && Sorted(s) && x in multiset(s)
    ensures s[0] <= x
  {
    assert x in s;
  }

  lemma SameHeadSameTail(a: seq<int>, b: seq<int>)
    requires |a| > 0 && |b| > 0 && a[0] == b[0] && multiset(a) == multiset(b)
    ensures multiset(a[1..]) == multiset(b[1..])
  {
    assert a == [a[0]] + a[1..];
    assert b == [b[0]] + b[1..];
    assert multiset(a[1..]) == multiset(a) - multiset{a[0]};
    assert multiset(b[1..]) == multiset(b) - multiset{b[0]};
  }

  /** A sorted list is determined by its elements: sorting has exactly one possible outcome. */
  lemma {:induction false} SortedPermutationIsUnique(a: seq<int>, b: seq<int>)
    requires Sorted(a) && Sorted(b) && multiset(a) == multiset(b)
    ensures a == b
  {
    assert |a| == |multiset(a)| == |multiset(b)| == |b|;
    if a != [] {
      assert a[0] in multiset(a) && b[0] in multiset(b);
      SortedHeadIsLeast(b, a[0]);
      SortedHeadIsLeast(a, b[0]);
      SameHeadSameTail(a, b);
      SortedTail(a);
      SortedTail(b);
      SortedPermutationIsUnique(a[1..], b[1..]);
      assert a == [a[0]] + a[1..];
      assert b == [b[0]] + b[1..];
    }
  }

  /** Sorted when every element is at most the next one. */
  lemma {:induction false} AdjacentSorted(s: seq<int>)
    requires forall k :: 0 <= k < |s| - 1 ==> s[k] <= s[k + 1]
    ensures Sorted(s)
  {
    if |s| > 1 {
      AdjacentSorted(s[1..]);
      assert forall k :: 0 <= k < |s| - 2 ==> s[1..][k] <= s[1..][k + 1];
      assert forall l :: 1 <= l < |s| ==> s[l] == s[1..][l - 1];
      assert forall l :: 1 < l < |s| ==> s[1] <= s[l];
    }
  }

  const DEVICE_SIZES: seq<int> := [640, 750, 828, 1080, 1200, 1920, 2048, 3840]
  const IMAGE_SIZES: seq<int> := [16, 32, 48, 64, 96, 128, 256, 384]

  /** The image sizes, then the device sizes: `allSizes` once sorted, for the default configuration. */
  const ALL_SIZES: seq<int> := IMAGE_SIZES + DEVICE_SIZES

  lemma DefaultConstantsSorted()
    ensures Sorted(DEVICE_SIZES) && Sorted(ALL_SIZES)
  {
    AdjacentSorted(DEVICE_SIZES);
    AdjacentSorted(ALL_SIZES);
  }

  /** With the default configuration the initialisation yields exactly these constants. */
  lemma DefaultSizes(configDeviceSizes: seq<int>, allSizes: seq<int>)
    requires Sorted(configDeviceSizes) && multiset(configDeviceSizes) == multiset(DEVICE_SIZES)
    requires Sorted(allSizes) && multiset(allSizes) == multiset(DEVICE_SIZES + IMAGE_SIZES)
    ensures configDeviceSizes == DEVICE_SIZES && allSizes == ALL_SIZES
  {
    DefaultConstantsSorted();
    ConcatElements(DEVICE_SIZES, IMAGE_SIZES, allSizes);
    SortedPermutationIsUnique(configDeviceSizes, DEVICE_SIZES);
    SortedPermutationIsUnique(allSizes, ALL_SIZES);
  }

  /** The order of two concatenated lists does not change their elements. */
  lemma ConcatElements(a: seq<int>, b: seq<int>, s: seq<int>)
    requires multiset(s) == multiset(a + b)
    ensures multiset(s) == multiset(b + a)
  {
  }

  // ---------------------------------------------------------------------------------------------
  // getInt

  /** A JavaScript value as the component receives it: a number (`None` is NaN), a string, or anything else. */
  datatype JsValue = Number(value: Option<int>) | Text(text: string) | Other

  /** `getInt(x)`: numbers as they are, strings through `parseInt(x, 10)`, `undefined` (`Other`) for the rest. */
  function GetInt(x: JsValue): (r: JsValue)
    ensures r.Number? || r.Other?
  {
    match x
    case Number(_) => x
    case Text(s) => Number(ParseInt(s, false))
    case Other => Other
  }

  /** A width written as text reads back as the number it was written from, and `getInt` is idempotent. */
  lemma GetIntReadsText(n: int, x: JsValue)
    ensures GetInt(Text(IntToString(n))) == Number(Some(n))
    ensures GetInt(GetInt(x)) == GetInt(x)
  {
    ParseIntOfIntToString(n);
  }

  // ---------------------------------------------------------------------------------------------
  // getWidths

  /** The widths offered, and whether the `srcset` describes them by width (`w`) or density (`x`). */
  datatype Widths = Widths(widths: seq<int>, kind: char)

  /** The index of the first size at least `x` (`allSizes.find(p => p >= x)`), if there is one. */
  function FirstAtLeast(sizes: seq<int>, x: int): (r: Option<nat>)
    ensures r.Some? ==> r.value < |sizes| && sizes[r.value] >= x && forall k :: 0 <= k < r.value ==> sizes[k] < x
    ensures r.None? ==> forall k :: 0 <= k < |sizes| ==> sizes[k] < x
  {
    if sizes == [] then None
    else if sizes[0] >= x then Some(0)
    else match FirstAtLeast(sizes[1..], x)
      case None => None
      case Some(i) => Some(i + 1)
  }

  /**
    The size for a target width: the first size at least the target, or the last size when
    there is none, when the target is NaN, or when the size found is 0 (`find(...) || last`).
  */
  function SizeFor(target: Option<int>, sizes: seq<int>): (r: int)
    requires |sizes| > 0
    ensures r in sizes
  {
    var last := sizes[|sizes| - 1];
    match target
    case None => last
    case Some(x) =>
      match FirstAtLeast(sizes, x)
      case Some(i) => if sizes[i] != 0 then sizes[i] else last
      case None => last
  }

  /** `width * 2`, NaN staying NaN. */
  function Double(width: Option<int>): Option<int> {
    match width
    case Some(n) => Some(2 * n)
    case None => None
  }

  /** `[...new Set([width, width * 2].map(SizeFor))]`: one or two sizes, in that order. */
  function FixedWidths(width: Option<int>, sizes: seq<int>): (r: seq<int>)
    requires |sizes| > 0
    ensures 1 <= |r| <= 2
    ensures forall k :: 0 <= k < |r| ==> r[k] in sizes
    ensures |r| == 2 ==> r[0] != r[1]
  {
    var small := SizeFor(width, sizes);
    var large := SizeFor(Double(width), sizes);
    if small == large then [small] else [small, large]
  }

  /** The smallest of the percentages (`Math.min(...percentSizes)`). */
  function MinOf(s: seq<int>): (m: int)
    requires |s| > 0
    ensures m in s && forall k :: 0 <= k < |s| ==> m <= s[k]
  {
    if |s| == 1 then s[0] else var rest := MinOf(s[1..]); if s[0] <= rest then s[0] else rest
  }

  /**
    The sizes at least `smallest` percent of the first device size, over integers:
    `s >= deviceSizes[0] * smallest * 0.01` as `s * 100 >= deviceSizes[0] * smallest`.
  */
  function AtLeastPercent(sizes: seq<int>, firstDevice: int, smallest: int): (r: seq<int>)
    ensures forall k :: 0 <= k < |r| ==> r[k] in sizes && r[k] * 100 >= firstDevice * smallest
    ensures forall k :: 0 <= k < |sizes| && sizes[k] * 100 >= firstDevice * smallest ==> sizes[k] in r
  {
    if sizes == [] then []
    else
      var rest := AtLeastPercent(sizes[1..], firstDevice, smallest);
      if sizes[0] * 100 >= firstDevice * smallest then [sizes[0]] + rest else rest
  }

  /** `sizes && (layout === 'fill' || layout === 'responsive')`. */
  predicate SizesApply(layout: string, sizes: Option<string>) {
    sizes.Some? && sizes.value != "" && (layout == "fill" || layout == "responsive")
  }

  /**
    `getWidths(width, layout, sizes)`. `viewportPercents` are the numbers the `(^|\s)(1?\d?\d)vw`
    pattern finds in `sizes`. With sizes that apply: the sizes at least the smallest percentage
    of the first device size, or all sizes when there is no percentage. Without: the device
    sizes when the width is not a number or the layout fills its container, else the one or two
    sizes for the fixed width and its double.
  */
  function GetWidths(width: JsValue, layout: string, sizes: Option<string>, viewportPercents: seq<int>,
                     configDeviceSizes: seq<int>, allSizes: seq<int>): (r: Widths)
    requires |allSizes| > 0
    ensures r.kind == 'w' || r.kind == 'x'
    ensures forall k :: 0 <= k < |r.widths| ==> r.widths[k] in allSizes || r.widths[k] in configDeviceSizes
    ensures r.kind == 'x' ==> 1 <= |r.widths| <= 2 && width.Number?
  {
    if SizesApply(layout, sizes) then
      if |viewportPercents| > 0 then
        Widths(if |configDeviceSizes| > 0 then AtLeastPercent(allSizes, configDeviceSizes[0], MinOf(viewportPercents))
               else [], 'w')
      else Widths(allSizes, 'w')
    else if !width.Number? || layout == "fill" || layout == "responsive" then Widths(configDeviceSizes, 'w')
    else Widths(FixedWidths(width.value, allSizes), 'x')
  }

  // ---------------------------------------------------------------------------------------------
  // Properties of getWidths

  /**
    For sorted positive sizes, the size for a target is a configured size: the smallest one at
    least the target, or the largest when the target is NaN or larger than every size.
  */
  lemma SizeForIsSmallestFit(target: Option<int>, sizes: seq<int>)
    requires |sizes| > 0 && Sorted(sizes) && forall k :: 0 <= k < |sizes| ==> sizes[k] > 0
    ensures SizeFor(target, sizes) in sizes
    ensures target.Some? && sizes[|sizes| - 1] >= target.value ==>
      && SizeFor(target, sizes) >= target.value
      && forall k :: 0 <= k < |sizes| && sizes[k] >= target.value ==> SizeFor(target, sizes) <= sizes[k]
    ensures target.None? || sizes[|sizes| - 1] < target.value ==> SizeFor(target, sizes) == sizes[|sizes| - 1]
  {
  }

  /**
    The fixed-width branch yields one or two configured sizes, non-decreasing: the sizes for the
    width and for twice the width, the second dropped when they coincide.
  */
  lemma FixedWidthsShape(width: Option<int>, sizes: seq<int>)
    requires |sizes| > 0 && Sorted(sizes) && forall k :: 0 <= k < |sizes| ==> sizes[k] > 0
    ensures var ws := FixedWidths(width, sizes);
      && 1 <= |ws| <= 2
      && ws[0] == SizeFor(width, sizes)
      && ws[|ws| - 1] == SizeFor(Double(width), sizes)
      && (forall k :: 0 <= k < |ws| ==> ws[k] in sizes)
      && (|ws| == 2 ==> ws[0] < ws[1])
  {
    SizeForIsSmallestFit(width, sizes);
    SizeForIsSmallestFit(Double(width), sizes);
    var last := sizes[|sizes| - 1];
    if width.Some? {
      var w := width.value;
      if w < 0 {
        // Both targets are below every (positive) size, so both give the first size.
        assert SizeFor(width, sizes) == sizes[0];
        assert SizeFor(Double(width), sizes) == sizes[0];
      } else if last >= 2 * w {
        assert SizeFor(width, sizes) <= SizeFor(Double(width), sizes);
      }
    }
  }

  /** With sizes that apply and no percentage, every size is offered, described by width. */
  lemma SizesWithoutPercentGiveAllSizes(width: JsValue, layout: string, sizes: Option<string>,
                                        configDeviceSizes: seq<int>, allSizes: seq<int>)
    requires |allSizes| > 0
    ensures SizesApply(layout, sizes) ==>
      GetWidths(width, layout, sizes, [], configDeviceSizes, allSizes) == Widths(allSizes, 'w')
    ensures !SizesApply(layout, sizes) && (!width.Number? || layout == "fill" || layout == "responsive") ==>
      GetWidths(width, layout, sizes, [], configDeviceSizes, allSizes) == Widths(configDeviceSizes, 'w')
    ensures GetWidths(width, layout, sizes, [], configDeviceSizes, allSizes).kind == 'x' <==>
      !SizesApply(layout, sizes) && width.Number? && layout != "fill" && layout != "responsive"
  {
  }

  /** Once one size is large enough, every later (larger) size is kept too. */
  lemma {:induction false} AllLargeEnoughAreKept(sizes: seq<int>, firstDevice: int, smallest: int)
    requires |sizes| > 0 && Sorted(sizes) && sizes[0] * 100 >= firstDevice * smallest
    ensures AtLeastPercent(sizes, firstDevice, smallest) == sizes
  {
    if |sizes| > 1 {
      SortedTail(sizes);
      AllLargeEnoughAreKept(sizes[1..], firstDevice, smallest);
      assert [sizes[0]] + sizes[1..] == sizes;
    }
  }

  /**
    With a percentage, the sorted sizes offered are a tail of the sorted configured sizes: every
    size from the first one that is large enough.
  */
  lemma {:induction false} PercentWidthsAreATail(sizes: seq<int>, firstDevice: int, smallest: int)
    requires Sorted(sizes)
    ensures var r := AtLeastPercent(sizes, firstDevice, smallest);
      |r| <= |sizes| && r == sizes[|sizes| - |r|..]
  {
    if sizes != [] {
      if sizes[0] * 100 >= firstDevice * smallest {
        AllLargeEnoughAreKept(sizes, firstDevice, smallest);
      } else {
        SortedTail(sizes);
        PercentWidthsAreATail(sizes[1..], firstDevice, smallest);
        var r := AtLeastPercent(sizes[1..], firstDevice, smallest);
        assert sizes[1..][|sizes[1..]| - |r|..] == sizes[|sizes| - |r|..];
      }
    }
  }

  // ---------------------------------------------------------------------------------------------
  // generateImgAttrs

  /** A loader: the URL for a source path, a quality (`None` when unset) and a width (`None` when undefined). */
  type Loader = (string, Option<int>, Option<int>) -> string

  /** The attributes of the `<img>`: `srcset` and `sizes` are `None` when undefined. */
  datatype ImgAttrs = ImgAttrs(src: string, srcset: Option<string>, sizes: Option<string>)

  /** The descriptor of the `i`-th width: the width itself for `w`, the density `i + 1` for `x`. */
  function Descriptor(kind: char, width: int, i: nat): string {
    (if kind == 'w' then IntToString(width) else IntToString(i + 1)) + [kind]
  }

  /** The entries of the `srcset`, one per width: the loader's URL, a space, the descriptor. */
  function SrcsetEntries(src: string, quality: Option<int>, w: Widths, loader: Loader): seq<string> {
    seq(|w.widths|, i requires 0 <= i < |w.widths| =>
      loader(src, quality, Some(w.widths[i])) + " " + Descriptor(w.kind, w.widths[i], i))
  }

  /**
    `generateImgAttrs`. An unoptimised image keeps its `src` and has no `srcset` or `sizes`.
    Otherwise the `srcset` lists every width, `src` is the URL for the last width, and `sizes`
    defaults to `100vw` for width descriptors.
  */
  function GenerateImgAttrs(src: string, unoptimized: bool, layout: string, width: JsValue, quality: Option<int>,
                            sizes: Option<string>, viewportPercents: seq<int>, loader: Loader,
                            configDeviceSizes: seq<int>, allSizes: seq<int>): (attrs: ImgAttrs)
    requires |allSizes| > 0
    ensures unoptimized ==> attrs == ImgAttrs(src, None, None)
    ensures !unoptimized ==> attrs.srcset.Some? && (sizes.Some? && sizes.value != "" ==> attrs.sizes == sizes)
  {
    if unoptimized then ImgAttrs(src, None, None)
    else
      var w := GetWidths(width, layout, sizes, viewportPercents, configDeviceSizes, allSizes);
      var unset := sizes.None? || sizes.value == "";
      ImgAttrs(
        loader(src, quality, if |w.widths| > 0 then Some(w.widths[|w.widths| - 1]) else None),
        Some(Join(SrcsetEntries(src, quality, w, loader), ", ")),
        if unset && w.kind == 'w' then Some("100vw") else sizes)
  }

  /**
    The attributes of an optimised image: the `srcset` holds one entry per width, its last entry
    is the `src` with the last width's descriptor, `sizes` is kept unless it is unset and the
    widths are width-described, and an unoptimised image is left alone.
  */
  lemma ImgAttrsAgree(src: string, unoptimized: bool, layout: string, width: JsValue, quality: Option<int>,
                      sizes: Option<string>, viewportPercents: seq<int>, loader: Loader,
                      configDeviceSizes: seq<int>, allSizes: seq<int>)
    requires |allSizes| > 0
    ensures var attrs := GenerateImgAttrs(src, unoptimized, layout, width, quality, sizes, viewportPercents,
                                          loader, configDeviceSizes, allSizes);
      var w := GetWidths(width, layout, sizes, viewportPercents, configDeviceSizes, allSizes);
      var entries := SrcsetEntries(src, quality, w, loader);
      && (unoptimized ==> attrs == ImgAttrs(src, None, None))
      && (!unoptimized ==>
            && attrs.srcset == Some(Join(entries, ", "))
            && |entries| == |w.widths|
            && (|entries| > 0 ==>
                  entries[|entries| - 1] == attrs.src + " " + Descriptor(w.kind, w.widths[|w.widths| - 1], |w.widths| - 1))
            && (attrs.sizes == Some("100vw") || attrs.sizes == sizes)
            && (w.kind == 'x' ==> attrs.sizes == sizes))
  {
  }

  /**
    For a fixed width, the `srcset` describes densities: its entries are the URL for the width's
    size with `1x` and, when twice the width needs a larger size, the URL for that size with `2x`.
  */
  lemma FixedWidthDensities(src: string, layout: string, n: int, quality: Option<int>, loader: Loader, allSizes: seq<int>)
    requires |allSizes| > 0 && Sorted(allSizes) && forall k :: 0 <= k < |allSizes| ==> allSizes[k] > 0
    requires layout != "fill" && layout != "responsive"
    ensures var w := GetWidths(Number(Some(n)), layout, None, [], [], allSizes);
      var entries := SrcsetEntries(src, quality, w, loader);
      && w.kind == 'x'
      && 1 <= |entries| <= 2
      && entries[0] == loader(src, quality, Some(SizeFor(Some(n), allSizes))) + " 1x"
      && (|entries| == 2 ==> entries[1] == loader(src, quality, Some(SizeFor(Some(2 * n), allSizes))) + " 2x")
  {
    FixedWidthsShape(Some(n), allSizes);
    assert IntToString(1) == "1";
    assert IntToString(2) == "2";
  }

  /** With the default sizes, a 100-pixel fixed-width image is offered at 128 and 256 pixels. */
  lemma DefaultFixedWidthExample()
    ensures GetWidths(Number(Some(100)), "intrinsic", None, [], DEVICE_SIZES, ALL_SIZES) == Widths([128, 256], 'x')
  {
    assert ALL_SIZES[4] == 96 && ALL_SIZES[5] == 128 && ALL_SIZES[6] == 256;
    assert FirstAtLeast(ALL_SIZES, 100) == Some(5);
    assert FirstAtLeast(ALL_SIZES, 200) == Some(6);
  }
}
