/**
 * The search half of `fetch_enrollment`: the parsed timetable page is the
 * flat sequence of its `<td>` texts, already stripped of surrounding
 * whitespace. The first cell equal to the target CRN marks the course
 * row; the limit sits 15 cells after it and the enrolment count 16 cells
 * after it. The result is `(enrolled, limit)`, or `None` when the CRN is
 * absent, when the row is cut short, or when either cell is not an integer.
 */
module Extractor {
  import opened Wrappers
  import opened IntParse

  /** The CRN of COSC 031 that the monitor watches. */
  const TargetCrn: string := "31322"

  /** Column offsets from the CRN cell: Lim is the 15th column after it, Enrl the 16th. */
  const LimOffset: nat := 15
  const EnrlOffset: nat := 16

  /** `i` is the index of the first cell whose text is `target`. */
  ghost predicate FirstMatch(cells: seq<string>, target: string, i: int)
  {
    0 <= i < |cells| && cells[i] == target
    && forall j :: 0 <= j < i ==> cells[j] != target
  }

  /** The `enumerate` loop: the first index at or after `from` whose cell is `target`. */
  function FindFrom(cells: seq<string>, target: string, from: nat): (r: Option<nat>)
    requires from <= |cells|
    ensures r.Some? ==> from <= r.value < |cells| && cells[r.value] == target
    ensures r.Some? ==> forall j :: from <= j < r.value ==> cells[j] != target
    ensures r.None? ==> forall j :: from <= j < |cells| ==> cells[j] != target
    decreases |cells| - from
  {
    if from == |cells| then None
    else if cells[from] == target then Some(from)
    else FindFrom(cells, target, from + 1)
  }

  /** The value of a row whose CRN cell is at `i`, read as the `try` block reads it. */
  function RowAt(cells: seq<string>, i: nat): (r: Option<(int, int)>)
    ensures r.Some? <==>
      (i + EnrlOffset < |cells|
       && ParseInt(cells[i + EnrlOffset]).Some? && ParseInt(cells[i + LimOffset]).Some?)
    ensures r.Some? ==> r.value == (ParseInt(cells[i + EnrlOffset]).value, ParseInt(cells[i + LimOffset]).value)
  {
    if i + EnrlOffset < |cells| then
      match (ParseInt(cells[i + EnrlOffset]), ParseInt(cells[i + LimOffset]))
      case (Some(enrl), Some(lim)) => Some((enrl, lim))
      case _ => None
    else
      None
  }

  /** What `fetch_enrollment` returns once the page is in hand. */
  function ExtractEnrollment(cells: seq<string>, target: string): (r: Option<(int, int)>)
    ensures r.Some? ==>
      (exists i :: FirstMatch(cells, target, i)
        && i + EnrlOffset < |cells|
        && ParseInt(cells[i + EnrlOffset]) == Some(r.value.0)
        && ParseInt(cells[i + LimOffset]) == Some(r.value.1))
  {
    match FindFrom(cells, target, 0)
    case None => None
    case Some(i) =>
      assert FirstMatch(cells, target, i);
      RowAt(cells, i)
  }

  /**
   * The result is decided by the first match alone: enrolled from offset 16,
   * limit from offset 15, and `None` whenever the row is short or a cell
   * does not parse.
   */
  lemma ExtractAtFirstMatch(cells: seq<string>, target: string, i: nat)
    requires FirstMatch(cells, target, i)
    ensures ExtractEnrollment(cells, target) == RowAt(cells, i)
    ensures ExtractEnrollment(cells, target).Some? <==>
      i + EnrlOffset < |cells|
      && ParseInt(cells[i + EnrlOffset]).Some? && ParseInt(cells[i + LimOffset]).Some?
    ensures ExtractEnrollment(cells, target).Some? ==>
      ExtractEnrollment(cells, target).value
        == (ParseInt(cells[i + EnrlOffset]).value, ParseInt(cells[i + LimOffset]).value)
  {
  }

  /** No cell equals the target: `None`, and no error. */
  lemma ExtractNoMatch(cells: seq<string>, target: string)
    requires forall j :: 0 <= j < |cells| ==> cells[j] != target
    ensures ExtractEnrollment(cells, target) == None
  {
  }

  /**
   * Only the first match counts: when its row is short or unparsable the
   * result is `None` even though a later cell also holds the target.
   */
  lemma ExtractFirstMatchOnly(cells: seq<string>, target: string, i: nat, k: nat)
    requires FirstMatch(cells, target, i)
    requires i < k < |cells| && cells[k] == target
    requires RowAt(cells, i).None?
    ensures ExtractEnrollment(cells, target) == None
  {
  }

  /** Cells beyond the first matching row do not influence the result. */
  lemma ExtractIgnoresLaterCells(cells: seq<string>, target: string, i: nat, k: nat, x: string)
    requires FirstMatch(cells, target, i)
    requires i + EnrlOffset < k < |cells|
    ensures ExtractEnrollment(cells[k := x], target) == ExtractEnrollment(cells, target)
  {
    var c := cells[k := x];
    assert FirstMatch(c, target, i);
    ExtractAtFirstMatch(cells, target, i);
    ExtractAtFirstMatch(c, target, i);
  }

  /** A well-formed row: the CRN, fourteen cells of any text, then `lim` and `enrl` rendered within the digit limit. */
  lemma ExtractWellFormedRow(before: seq<string>, middle: seq<string>, after: seq<string>, enrl: int, lim: int)
    requires forall j :: 0 <= j < |before| ==> before[j] != TargetCrn
    requires |middle| == LimOffset - 1
    requires |NatToString(if enrl < 0 then -enrl else enrl)| <= MaxStrDigits
    requires |NatToString(if lim < 0 then -lim else lim)| <= MaxStrDigits
    ensures ExtractEnrollment(before + [TargetCrn] + middle + [IntToString(lim), IntToString(enrl)] + after, TargetCrn)
      == Some((enrl, lim))
  {
    var cells := before + [TargetCrn] + middle + [IntToString(lim), IntToString(enrl)] + after;
    var i := |before|;
    assert FirstMatch(cells, TargetCrn, i) by {
      assert cells[i] == TargetCrn;
      forall j | 0 <= j < i ensures cells[j] != TargetCrn { assert cells[j] == before[j]; }
    }
    assert cells[i + LimOffset] == IntToString(lim);
    assert cells[i + EnrlOffset] == IntToString(enrl);
    ParseIntRoundTrip(lim);
    ParseIntRoundTrip(enrl);
    ExtractAtFirstMatch(cells, TargetCrn, i);
  }
}
