/**
 * Vertical layout of the lanes: each lane is as tall as its rows plus
 * padding, lanes are stacked top to bottom without gaps, and the chart is
 * as tall as all lanes plus the axis band.
 */
module Layout {
  import opened Common
  import opened Schedule

  const RowHeight: int := 48
  const RowGap: int := 6
  const LaneVPad: int := 12
  const TopAxisPad: int := 80

  /** `rows * rowHeight + max(0, rows - 1) * rowGap + laneVPad * 2`. */
  function LaneHeight(rows: nat): (h: int)
    ensures h >= rows * RowHeight + 2 * LaneVPad
    ensures rows > 0 ==> h == rows * (RowHeight + RowGap) - RowGap + 2 * LaneVPad
  {
    rows * RowHeight + Max(0, rows - 1) * RowGap + LaneVPad * 2
  }

  /** The sum of the heights of `lanes`. */
  function TotalHeight(lanes: seq<Lane>): int
    decreases |lanes|
  {
    if lanes == [] then 0 else TotalHeight(lanes[..|lanes| - 1]) + LaneHeight(lanes[|lanes| - 1].rows)
  }

  /** Lanes follow each other from the top of the chart, each starting where the previous one ends. */
  ghost predicate StackedTopDown(placed: seq<Lane>) {
    && (|placed| > 0 ==> placed[0].yTop == 0)
    && (forall k :: 0 <= k < |placed| - 1 ==> placed[k + 1].yTop == placed[k].yTop + placed[k].height)
  }

  /** Each placed lane is its input lane with its computed height, and nothing else changed. */
  ghost predicate SizedFrom(lanes: seq<Lane>, placed: seq<Lane>) {
    && |placed| == |lanes|
    && forall k :: 0 <= k < |lanes| ==>
        placed[k] == lanes[k].(yTop := placed[k].yTop, height := LaneHeight(lanes[k].rows))
  }

  /** The first `k` lanes are laid out in `placed`, and `yCursor` is where the next one starts. */
  ghost predicate LaidOut(lanes: seq<Lane>, k: int, placed: seq<Lane>, yCursor: int) {
    && 0 <= k <= |lanes|
    && SizedFrom(lanes[..k], placed)
    && StackedTopDown(placed)
    && yCursor == TotalHeight(lanes[..k])
    && (k > 0 ==> yCursor == placed[k - 1].yTop + placed[k - 1].height)
  }

  lemma LayOutOneMore(lanes: seq<Lane>, k: int, placed: seq<Lane>, yCursor: int)
    requires LaidOut(lanes, k, placed, yCursor) && k < |lanes|
    ensures var height := LaneHeight(lanes[k].rows);
      LaidOut(lanes, k + 1, placed + [lanes[k].(yTop := yCursor, height := height)], yCursor + height)
  {
    var height := LaneHeight(lanes[k].rows);
    var more := placed + [lanes[k].(yTop := yCursor, height := height)];
    assert lanes[..k + 1][..k] == lanes[..k];
    assert TotalHeight(lanes[..k + 1]) == yCursor + height;
    assert SizedFrom(lanes[..k + 1], more) by {
      forall i | 0 <= i < k + 1
        ensures more[i] == lanes[..k + 1][i].(yTop := more[i].yTop, height := LaneHeight(lanes[..k + 1][i].rows))
      {
        if i < k {
          assert more[i] == placed[i];
        }
      }
    }
    assert StackedTopDown(more) by {
      forall i | 0 <= i < |more| - 1 ensures more[i + 1].yTop == more[i].yTop + more[i].height {
        if i + 1 < k {
          assert more[i + 1] == placed[i + 1] && more[i] == placed[i];
        }
      }
    }
  }

  /** The `lanesWithY` loop with its running `yCursor`, and `chartHeight`. */
  method LayoutLanes(lanes: seq<Lane>) returns (placed: seq<Lane>, chartHeight: int)
    ensures SizedFrom(lanes, placed)
    ensures StackedTopDown(placed)
    ensures chartHeight == TotalHeight(lanes) + TopAxisPad
    ensures |placed| > 0 ==> chartHeight == placed[|placed| - 1].yTop + placed[|placed| - 1].height + TopAxisPad
  {
    var yCursor := 0;
    placed := [];
    for k := 0 to |lanes|
      invariant LaidOut(lanes, k, placed, yCursor)
    {
      var lane := lanes[k];
      var height := LaneHeight(lane.rows);
      LayOutOneMore(lanes, k, placed, yCursor);
      placed := placed + [lane.(yTop := yCursor, height := height)];
      yCursor := yCursor + height;
    }
    assert lanes[..|lanes|] == lanes;
    chartHeight := yCursor + TopAxisPad;
  }

  /** A lane is never shorter than its padding, and each extra row adds a row and a gap. */
  lemma LaneHeightGrows(rows: nat)
    ensures LaneHeight(rows) >= 2 * LaneVPad
    ensures LaneHeight(rows + 1) == LaneHeight(rows) + RowHeight + (if rows == 0 then 0 else RowGap)
  {
  }

  /** Placed lanes never overlap: every lane ends at or above the top of every later lane. */
  lemma {:induction false} LanesDoNotOverlap(placed: seq<Lane>, k: int, l: int)
    requires StackedTopDown(placed)
    requires forall i :: 0 <= i < |placed| ==> placed[i].height >= 0
    requires 0 <= k < l < |placed|
    ensures placed[k].yTop + placed[k].height <= placed[l].yTop
    decreases l - k
  {
    if k + 1 < l {
      LanesDoNotOverlap(placed, k + 1, l);
    }
  }

  /** The top of a bar in row `row`, measured from its lane's top. */
  function BarOffset(row: nat): int {
    LaneVPad + row * (RowHeight + RowGap)
  }

  /**
   * Bars stay inside their lane's padding, and bars of different rows do not
   * overlap vertically.
   */
  lemma BarsFitInLane(rows: nat, row: nat, other: nat)
    requires row < rows && other < rows
    ensures 0 <= BarOffset(row) && BarOffset(row) + RowHeight <= LaneHeight(rows) - LaneVPad
    ensures row < other ==> BarOffset(row) + RowHeight <= BarOffset(other)
  {
    assert BarOffset(row) + RowHeight <= BarOffset(rows - 1) + RowHeight;
  }

  /** The chart's height covers every lane and the axis band above them. */
  lemma {:induction false} ChartCoversLanes(lanes: seq<Lane>, placed: seq<Lane>, chartHeight: int, k: int)
    requires SizedFrom(lanes, placed) && StackedTopDown(placed)
    requires |placed| > 0 && chartHeight == placed[|placed| - 1].yTop + placed[|placed| - 1].height + TopAxisPad
    requires 0 <= k < |placed|
    ensures 0 <= placed[k].yTop
    ensures placed[k].yTop + placed[k].height + TopAxisPad <= chartHeight
  {
    forall i | 0 <= i < |placed| ensures placed[i].height >= 0 {
      LaneHeightGrows(lanes[i].rows);
    }
    if k < |placed| - 1 {
      LanesDoNotOverlap(placed, k, |placed| - 1);
    }
    if k > 0 {
      LanesDoNotOverlap(placed, 0, k);
    }
  }
}
