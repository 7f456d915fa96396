/** The reporting object the loader talks to, seen as the log of what it was
    told, and the percentages the loader's progress reports carry. */
module Reporting {
  import opened DicomTypes

  /** The titles of the loader's progress dialogs. */
  datatype ProgressTitle = ReadingImageMetadata | ReadingPixelData

  /** The identifiers of the loader's warnings and messages. The texts shown
      beside them carry no information of their own and are not modelled. */
  datatype Identifier =
    | NotADicomFile          // load_metadata_from_dicom_files:NotADicomFile
    | MultipleGroupings      // load_main_image_from_dicom_files:MultipleGroupings
    | SettingDatatypeToInt8  // load_images_from_stack:SettingDatatypeToInt8

  /** One notification sent to the reporting object. */
  datatype Event =
    | ProgressShown(title: ProgressTitle)
    | ProgressUpdated(value: int)
    | ProgressCompleted
    | WarningShown(identifier: Identifier, about: Option<FilePath>)
    | MessageShown(identifier: Identifier)

  /** The reporting object: every call appends one event to its log. */
  class Reporter {
    var log: seq<Event>

    constructor ()
      ensures log == []
    {
      log := [];
    }

    method ShowProgress(title: ProgressTitle)
      modifies this
      ensures log == old(log) + [ProgressShown(title)]
    {
      log := log + [ProgressShown(title)];
    }

    method UpdateProgressValue(value: int)
      modifies this
      ensures log == old(log) + [ProgressUpdated(value)]
    {
      log := log + [ProgressUpdated(value)];
    }

    method CompleteProgress()
      modifies this
      ensures log == old(log) + [ProgressCompleted]
    {
      log := log + [ProgressCompleted];
    }

    method ShowWarning(identifier: Identifier, about: Option<FilePath>)
      modifies this
      ensures log == old(log) + [WarningShown(identifier, about)]
    {
      log := log + [WarningShown(identifier, about)];
    }

    method ShowMessage(identifier: Identifier)
      modifies this
      ensures log == old(log) + [MessageShown(identifier)]
    {
      log := log + [MessageShown(identifier)];
    }
  }

  /** Python's `round(100 * i / n)`: the integer nearest to 100*i/n, a value
      exactly halfway between two integers going to the even one. */
  function ProgressPercent(i: int, n: int): (r: int)
    requires 0 <= i && 0 < n
    ensures -n <= 200 * i - 2 * (n * r) <= n
    ensures 200 * i - 2 * (n * r) == n || 200 * i - 2 * (n * r) == -n ==> r % 2 == 0
  {
    var q, m := (100 * i) / n, (100 * i) % n;
    assert 100 * i == n * q + m;
    assert n * (q + 1) == n * q + n;
    if 2 * m < n then q
    else if 2 * m > n then q + 1
    else if q % 2 == 0 then q
    else q + 1
  }

  lemma MultiplyGap(n: int, a: int, b: int, k: int)
    requires 0 < n && 0 <= k && a + k <= b
    ensures n * a + n * k <= n * b
  {
    var d := b - a - k;
    assert n * d >= 0;
    assert n * (d + k) == n * d + n * k;
    assert n * b == n * a + n * (d + k);
  }

  /** Being nearest to 100*i/n, with halves going to the even integer, fixes
      the result: `ProgressPercent` is the only function meeting its contract. */
  lemma ProgressPercentUnique(i: int, n: int, r: int)
    requires 0 <= i && 0 < n
    requires -n <= 200 * i - 2 * (n * r) <= n
    requires 200 * i - 2 * (n * r) == n || 200 * i - 2 * (n * r) == -n ==> r % 2 == 0
    ensures r == ProgressPercent(i, n)
  {
    var p := ProgressPercent(i, n);
    if r < p {
      MultiplyGap(n, r, p, 1);
      if p != r + 1 {
        MultiplyGap(n, r, p, 2);
      }
    } else if r > p {
      MultiplyGap(n, p, r, 1);
      if r != p + 1 {
        MultiplyGap(n, p, r, 2);
      }
    }
  }

  /** Every percentage reported for an index within the run is in 0..100. */
  lemma ProgressPercentBounds(i: int, n: int)
    requires 0 <= i <= n && 0 < n
    ensures 0 <= ProgressPercent(i, n) <= 100
  {
    var r := ProgressPercent(i, n);
    if r > 100 {
      MultiplyGap(n, 100, r, 1);
    } else if r < 0 {
      MultiplyGap(n, r, 0, 1);
    }
  }

  /** A later index never reports a smaller percentage. */
  lemma ProgressPercentMonotone(i: int, j: int, n: int)
    requires 0 <= i <= j && 0 < n
    ensures ProgressPercent(i, n) <= ProgressPercent(j, n)
  {
    var a, b := ProgressPercent(i, n), ProgressPercent(j, n);
    if a > b {
      MultiplyGap(n, b, a, 1);
    }
  }

  /** The percentages reported for indices lo..hi-1 of a run of n. */
  function ProgressRun(lo: nat, hi: nat, n: nat): (run: seq<int>)
    requires lo <= hi <= n
    ensures |run| == hi - lo
  {
    seq(hi - lo, k requires 0 <= k < hi - lo => ProgressPercent(lo + k, n))
  }

  /** A run one index longer ends with that index's percentage. */
  lemma ProgressRunStep(lo: nat, hi: nat, n: nat)
    requires lo <= hi < n
    ensures ProgressRun(lo, hi + 1, n) == ProgressRun(lo, hi, n) + [ProgressPercent(hi, n)]
  {
    var longer := ProgressRun(lo, hi + 1, n);
    assert longer[..hi - lo] == ProgressRun(lo, hi, n);
    assert longer == longer[..hi - lo] + [longer[hi - lo]];
  }

  /** The progress updates sent for indices lo..hi-1 of a run of n. */
  function ProgressUpdates(lo: nat, hi: nat, n: nat): (events: seq<Event>)
    requires lo <= hi <= n
    ensures |events| == hi - lo
  {
    seq(hi - lo, k requires 0 <= k < hi - lo => ProgressUpdated(ProgressPercent(lo + k, n)))
  }

  /** The values of the progress updates in a log, in order. */
  function ProgressValues(events: seq<Event>): (values: seq<int>)
    ensures |values| <= |events|
  {
    if events == [] then []
    else ProgressValues(events[..|events| - 1])
         + (match events[|events| - 1]
            case ProgressUpdated(v) => [v]
            case _ => [])
  }

  /** A value is among a log's progress values exactly when the log holds an
      update to it. */
  lemma {:induction false} ProgressValuesAreUpdates(events: seq<Event>)
    ensures forall v :: v in ProgressValues(events) <==> ProgressUpdated(v) in events
    decreases |events|
  {
    if events != [] {
      var init, last := events[..|events| - 1], events[|events| - 1];
      assert events == init + [last];
      ProgressValuesAreUpdates(init);
    }
  }

  lemma {:induction false} ProgressValuesAppend(a: seq<Event>, b: seq<Event>)
    ensures ProgressValues(a + b) == ProgressValues(a) + ProgressValues(b)
    decreases |b|
  {
    if b != [] {
      assert (a + b)[..|a + b| - 1] == a + b[..|b| - 1];
      ProgressValuesAppend(a, b[..|b| - 1]);
    } else {
      assert a + b == a;
    }
  }

  /** Only progress updates, and none of the other events, carry values. */
  lemma {:induction false} ProgressValuesOfUpdates(lo: nat, hi: nat, n: nat)
    requires lo <= hi <= n
    ensures ProgressValues(ProgressUpdates(lo, hi, n)) == ProgressRun(lo, hi, n)
    decreases hi
  {
    if lo < hi {
      assert ProgressUpdates(lo, hi, n)[..hi - 1 - lo] == ProgressUpdates(lo, hi - 1, n);
      ProgressValuesOfUpdates(lo, hi - 1, n);
      ProgressRunStep(lo, hi - 1, n);
    }
  }

  /** A run of reports starting from the opening 0: every value is a
      percentage, and the values never decrease. */
  lemma ProgressRunWellFormed(lo: nat, hi: nat, n: nat)
    requires lo <= hi <= n
    ensures forall k :: 0 <= k < |ProgressRun(lo, hi, n)| ==> 0 <= ProgressRun(lo, hi, n)[k] <= 100
    ensures forall a, b :: 0 <= a <= b < |ProgressRun(lo, hi, n)| ==>
              ProgressRun(lo, hi, n)[a] <= ProgressRun(lo, hi, n)[b]
  {
    var run := ProgressRun(lo, hi, n);
    forall k | 0 <= k < |run|
      ensures 0 <= run[k] <= 100
    {
      ProgressPercentBounds(lo + k, n);
    }
    forall a, b | 0 <= a <= b < |run|
      ensures run[a] <= run[b]
    {
      ProgressPercentMonotone(lo + a, lo + b, n);
    }
  }

  /** A sequence of reported values: every value a percentage, and never
      smaller than the one before. */
  predicate IsProgressSequence(values: seq<int>)
  {
    && (forall k :: 0 <= k < |values| ==> 0 <= values[k] <= 100)
    && (forall a, b :: 0 <= a <= b < |values| ==> values[a] <= values[b])
  }

  /** A progress dialog opened at 0 and followed by a run of reports. */
  lemma OpenedRunIsProgress(lo: nat, hi: nat, n: nat)
    requires lo <= hi <= n
    ensures IsProgressSequence([0] + ProgressRun(lo, hi, n))
  {
    var run := ProgressRun(lo, hi, n);
    var values := [0] + run;
    ProgressRunWellFormed(lo, hi, n);
    forall a, b | 0 <= a <= b < |values|
      ensures values[a] <= values[b]
    {
      if a > 0 {
        assert values[a] == run[a - 1] && values[b] == run[b - 1];
      } else if b > 0 {
        assert values[b] == run[b - 1];
      }
    }
  }

  /** Opening a dialog and setting it to 0 reports the single value 0. */
  lemma OpeningReportsZero(title: ProgressTitle)
    ensures ProgressValues([ProgressShown(title), ProgressUpdated(0)]) == [0]
  {
    assert [ProgressShown(title), ProgressUpdated(0)][..1] == [ProgressShown(title)];
    assert ProgressValues([ProgressShown(title)]) == [];
  }
}
