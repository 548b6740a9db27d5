/** The logic of `src/components/RegionTooltip.tsx`: where the hover tooltip
    is placed relative to the mouse and the window, and what it says about
    the region's representatives. The browser window size becomes the
    parameters `innerWidth` and `innerHeight`. */
module RegionTooltip {
  import opened Wrappers
  import opened Domain
  import opened Text
  import Formatting
  import RegionMatcher

  const TooltipWidth: int := 220
  const TooltipHeight: int := 80
  const Padding: int := 16

  /** CSS `left` and `top` of the tooltip, in pixels. */
  datatype Placement = Placement(left: int, top: int)

  function Max(a: int, b: int): int { if a >= b then a else b }

  /** Default placement is 20px right of and 40px above the cursor. If the
      tooltip would cross the right padding it flips to the cursor's left;
      if it would cross the bottom padding it moves above the cursor. The
      top and left padding clamps come last and win over the flips. */
  function Place(x: int, y: int, innerWidth: int, innerHeight: int): (p: Placement)
    ensures p.left >= Padding && p.top >= Padding
    ensures x + 20 + TooltipWidth <= innerWidth - Padding ==> p.left == Max(Padding, x + 20)
    ensures x + 20 + TooltipWidth > innerWidth - Padding ==> p.left == Max(Padding, x - TooltipWidth - 20)
    ensures y - 40 + TooltipHeight <= innerHeight - Padding ==> p.top == Max(Padding, y - 40)
    ensures y - 40 + TooltipHeight > innerHeight - Padding ==> p.top == Max(Padding, y - TooltipHeight - 10)
  {
    var left0 := x + 20;
    var top0 := y - 40;
    var left1 := if left0 + TooltipWidth > innerWidth - Padding then x - TooltipWidth - 20 else left0;
    var top1 := if top0 + TooltipHeight > innerHeight - Padding then y - TooltipHeight - 10 else top0;
    var top2 := if top1 < Padding then Padding else top1;
    var left2 := if left1 < Padding then Padding else left1;
    Placement(left2, top2)
  }

  /** The default placement survives exactly when no edge test fires and no
      clamp is needed. */
  lemma PlaceDefaultKept(x: int, y: int, innerWidth: int, innerHeight: int)
    ensures (Place(x, y, innerWidth, innerHeight).left == x + 20) <==>
            ((x + 20 + TooltipWidth <= innerWidth - Padding && x + 20 >= Padding) ||
             (x + 20 == Padding))
    ensures (Place(x, y, innerWidth, innerHeight).top == y - 40) <==>
            ((y - 40 + TooltipHeight <= innerHeight - Padding && y - 40 >= Padding) ||
             (y - 40 == Padding))
  {
  }

  /** With the cursor inside a window at least 252px wide, the tooltip lies
      horizontally within the padding on both sides; on the right it leaves
      at least the 16px padding. */
  lemma PlaceFitsHorizontally(x: int, y: int, innerWidth: int, innerHeight: int)
    requires 0 <= x <= innerWidth
    requires innerWidth >= Padding + TooltipWidth + Padding
    ensures var p := Place(x, y, innerWidth, innerHeight);
            Padding <= p.left && p.left + TooltipWidth <= innerWidth - Padding
  {
  }

  /** With the cursor inside a window at least 106px high, the tooltip lies
      vertically inside the window, but the bottom flip keeps only 10px
      (not the 16px padding) below it: it moves the tooltip to end 10px
      above the cursor. */
  lemma PlaceFitsVertically(x: int, y: int, innerWidth: int, innerHeight: int)
    requires 0 <= y <= innerHeight
    requires innerHeight >= Padding + TooltipHeight + 10
    ensures var p := Place(x, y, innerWidth, innerHeight);
            Padding <= p.top && p.top + TooltipHeight <= innerHeight - 10
  {
  }

  /** The bottom margin of 10px in `PlaceFitsVertically` is the best bound:
      a cursor on the bottom edge of a 600px window puts the tooltip's
      bottom edge 10px from the window's bottom. */
  lemma PlaceBottomEdgeExample()
    ensures Place(100, 600, 1000, 600) == Placement(120, 510)
    ensures 510 + TooltipHeight == 600 - 10
  {
  }

  // ---------------------------------------------------------------------
  // Label and the rendered tooltip

  const NoOffice: string := "Нет офиса"
  const RepresentativeStem: string := " представител"

  /** The status line under the region name for `n` representatives. The
      label of a non-empty list starts with the number of representatives,
      which reads back as that number, followed by the stem and an ending;
      the empty label is recognisable, since "Н" is not a digit. */
  function CountLabel(n: nat): (r: string)
    ensures r == NoOffice <==> n == 0
    ensures n > 0 ==>
      var digits := NatToString(n);
      && |digits| <= |r| && r[..|digits|] == digits
      && ParseNat(r[..|digits|]) == n
      && r[|digits|..] == RepresentativeStem + Formatting.PluralForm(n)
  {
    if n == 0 then NoOffice
    else
      var digits := NatToString(n);
      var text := digits + RepresentativeStem + Formatting.PluralForm(n);
      assert text[..|digits|] == digits;
      assert text[|digits|..] == RepresentativeStem + Formatting.PluralForm(n);
      ParseNatToString(n);
      assert IsDigit(text[0]) && !IsDigit(NoOffice[0]);
      text
  }

  /** What the tooltip shows: the region's name, whether it has
      representatives (the green pulsing dot), the label, and where it is. */
  datatype Tooltip = Tooltip(title: string, hasReps: bool, status: string, placement: Placement)

  /** `RegionTooltip`: nothing when the catalog does not know the hovered
      region; otherwise the tooltip for the representatives in that region. */
  function RenderTooltip(regionId: string, reps: seq<Representative>, catalog: seq<Region>,
                         x: int, y: int, innerWidth: int, innerHeight: int): (r: Option<Tooltip>)
    ensures r.None? <==> RegionMatcher.FindRegionById(catalog, regionId).None?
    ensures r.Some? ==>
      var inRegion := RegionMatcher.RepresentativesForRegion(reps, regionId, catalog);
      && r.value.title == RegionMatcher.FindRegionById(catalog, regionId).value.name
      && (r.value.hasReps <==> exists i :: 0 <= i < |reps| && RegionMatcher.IsRepresentativeInRegion(reps[i], regionId, catalog))
      && (r.value.status == NoOffice <==> !r.value.hasReps)
      && r.value.status == CountLabel(|inRegion|)
      && r.value.placement == Place(x, y, innerWidth, innerHeight)
  {
    var region := RegionMatcher.FindRegionById(catalog, regionId);
    var inRegion := RegionMatcher.RepresentativesForRegion(reps, regionId, catalog);
    var hasReps := |inRegion| > 0;
    if region.None? then None
    else
      assert hasReps ==> inRegion[0] in reps;
      Some(Tooltip(region.value.name, hasReps, CountLabel(|inRegion|),
                   Place(x, y, innerWidth, innerHeight)))
  }

  /** Hovering `RF-x` or `RU-x` shows the same tooltip. */
  lemma RenderTooltipPrefixInsensitive(x: string, reps: seq<Representative>, catalog: seq<Region>,
                                       mx: int, my: int, innerWidth: int, innerHeight: int)
    ensures RenderTooltip(RegionMatcher.ForeignPrefix + x, reps, catalog, mx, my, innerWidth, innerHeight) ==
            RenderTooltip(RegionMatcher.CanonicalPrefix + x, reps, catalog, mx, my, innerWidth, innerHeight)
  {
    RegionMatcher.FindRegionByIdCanonical(catalog, "", x);
    RegionMatcher.RepresentativesForRegionPrefixInsensitive(reps, x, catalog);
  }
}
