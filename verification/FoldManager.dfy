/** `FoldManager` of src-tauri/src/fold.rs: the mutable registry with its lazily rebuilt cache. */
module FoldManagers {
  import opened Integers
  import opened Wrappers
  import opened FoldLines
  import opened FoldRegistry
  import opened FoldLayouts
  import FoldScans

  class FoldManager {
    var regions: Regions
    var enabled: bool
    var collapsedCache: Option<seq<FoldRegion>>

    ghost function View(): State
      reads this
    {
      State(regions, enabled)
    }

    /** The registry invariant, and a cache that is absent or exactly the sorted collapsed set. */
    ghost predicate Valid()
      reads this
    {
      Consistent(View()) && (collapsedCache.Some? ==> collapsedCache.value == CollapsedList(regions))
    }

    ghost function Collapsed(): seq<FoldRegion>
      requires Valid()
      reads this
    {
      CollapsedList(regions)
    }

    constructor ()
      ensures Valid() && View() == Initial
    {
      regions, enabled, collapsedCache := map[], true, None;
    }

    predicate HasOverlap(start: u32, end: u32)
      reads this
    {
      exists id :: id in regions && Overlaps(regions[id], start, end)
    }

    method RegisterOsc133Region(start: u32, end: u32, text: string, exitCode: Option<int>)
      requires Valid()
      modifies this
      ensures Valid() && View() == Step(old(View()), RegisterOsc133(start, end, text, exitCode))
    {
      StepKeepsConsistent(View(), RegisterOsc133(start, end, text, exitCode));
      if end <= start || HasOverlap(start, end) {
        return;
      }
      var region := Osc133Region(start, end, text, exitCode);
      regions := regions[region.id := region];
      collapsedCache := None;
    }

    method RegisterCustomRegion(start: u32, end: u32, caption: string)
      requires Valid()
      modifies this
      ensures Valid() && View() == Step(old(View()), RegisterCustom(start, end, caption))
    {
      StepKeepsConsistent(View(), RegisterCustom(start, end, caption));
      if end <= start || HasOverlap(start, end) {
        return;
      }
      var region := CustomRegion(start, end, caption);
      regions := regions[region.id := region];
      collapsedCache := None;
    }

    method ToggleFold(line: u32) returns (toggled: bool)
      requires Valid()
      modifies this
      ensures Valid() && View() == Step(old(View()), Toggle(line))
      ensures toggled <==> old(enabled) && ContainsLine(old(regions), line)
    {
      if !enabled {
        return false;
      }
      StepKeepsConsistent(View(), Toggle(line));
      var updated, found := FoldScans.ToggleAt(regions, line);
      if found {
        regions := updated;
        collapsedCache := None;
      }
      return found;
    }

    method ExpandRegionContaining(line: u32) returns (expanded: bool)
      requires Valid()
      modifies this
      ensures Valid() && View() == Step(old(View()), Expand(line))
      ensures expanded <==> old(regions) != regions
    {
      StepKeepsConsistent(View(), Expand(line));
      var updated, changed := FoldScans.ExpandAt(regions, line);
      if changed {
        regions := updated;
        collapsedCache := None;
      }
      return changed;
    }

    method UnfoldEverything()
      requires Valid()
      modifies this
      ensures Valid() && View() == Step(old(View()), UnfoldAll)
    {
      StepKeepsConsistent(View(), UnfoldAll);
      regions := FoldScans.Unfold(regions);
      collapsedCache := None;
    }

    method SetFoldingEnabled(on: bool)
      requires Valid()
      modifies this
      ensures Valid() && View() == Step(old(View()), SetEnabled(on))
    {
      StepKeepsConsistent(View(), SetEnabled(on));
      if on {
        enabled := true;
      } else {
        UnfoldEverything();
        enabled := false;
      }
    }

    method PruneBeforeLine(rows: u32)
      requires Valid()
      modifies this
      ensures Valid() && View() == Step(old(View()), Prune(rows))
    {
      StepKeepsConsistent(View(), Prune(rows));
      regions := FoldScans.Prune(regions, rows);
      collapsedCache := None;
    }

    /** The collapsed regions in line order, from the cache when it is there. */
    method GetCollapsedRegions() returns (c: seq<FoldRegion>)
      requires Valid()
      modifies this`collapsedCache
      ensures Valid() && c == Collapsed()
    {
      if collapsedCache.None? {
        var list := FoldScans.SortCollapsed(regions);
        collapsedCache := Some(list);
      }
      return collapsedCache.value;
    }

    method DisplayLineToActual(display: u32) returns (actual: u32)
      requires Valid() && DisplayToActual(Collapsed(), display) < LIMIT32
      modifies this`collapsedCache
      ensures Valid() && actual == DisplayToActual(Collapsed(), display)
    {
      var c := GetCollapsedRegions();
      actual := FoldScans.ScanDisplayToActual(c, display);
    }

    method ActualLineToDisplay(actual: u32) returns (display: u32)
      requires Valid()
      modifies this`collapsedCache
      ensures Valid() && display == ActualToDisplay(Collapsed(), actual)
    {
      var c := GetCollapsedRegions();
      display := FoldScans.ScanActualToDisplay(c, actual);
    }

    method GetSummaryRegion(display: u32) returns (r: Option<FoldRegion>)
      requires Valid()
      modifies this`collapsedCache
      ensures Valid() && r == SummaryAt(Collapsed(), display)
    {
      var c := GetCollapsedRegions();
      r := FoldScans.ScanSummary(c, display);
    }

    method GetTotalDisplayLines(total: u32) returns (lines: u32)
      requires Valid()
      modifies this`collapsedCache
      ensures Valid() && lines == TotalDisplay(Collapsed(), total)
    {
      var c := GetCollapsedRegions();
      var hidden := FoldScans.SumHidden(c);
      lines := SaturatingSub(total, hidden);
    }

    /** The frozen layout of one frame. The second precondition is that the window's last row maps
        to a 32-bit line. */
    method BuildLayout(scrollback: u32, viewport: u32, scrollOffset: u32) returns (l: FoldLayout)
      requires Valid() && scrollback + viewport < LIMIT32
      requires FrameFits(Collapsed(), scrollback, viewport, scrollOffset)
      modifies this`collapsedCache
      ensures Valid() && l.Valid() && l.collapsed == Collapsed()
      ensures IsFrame(l, Collapsed(), scrollback, viewport, scrollOffset)
    {
      var c := GetCollapsedRegions();
      l := FoldScans.Frame(c, scrollback, viewport, scrollOffset);
    }
  }
}
