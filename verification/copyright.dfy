/**
 The footer's copyright line: when the text holds a copyright sign, the
 first run of four digits (`/\d{4}/`, no global flag) is replaced by the
 current year. The year is a parameter here instead of a clock reading.
 */
module Copyright {
  import opened Decimal

  datatype Option<T> = None | Some(value: T)

  const CopyrightSign: char := '\U{00A9}'

  /** Four digits start at index `i` of `text`. */
  predicate YearAt(text: string, i: int) {
    0 <= i && i + 4 <= |text| && forall k :: i <= k < i + 4 ==> IsDigit(text[k])
  }

  /** `i` is the leftmost index at which four digits start. */
  ghost predicate IsFirstYear(text: string, i: int) {
    YearAt(text, i) && forall k :: 0 <= k < i ==> !YearAt(text, k)
  }

  ghost predicate NoYear(text: string) {
    forall k :: !YearAt(text, k)
  }

  /** The leftmost index, from `from` on, at which four digits start. */
  function FindYearFrom(text: string, from: nat): (r: Option<nat>)
    ensures r.Some? ==> from <= r.value && YearAt(text, r.value)
    ensures r.Some? ==> forall k :: from <= k < r.value ==> !YearAt(text, k)
    ensures r.None? ==> forall k :: from <= k ==> !YearAt(text, k)
    decreases |text| - from
  {
    if from + 4 > |text| then None
    else if YearAt(text, from) then Some(from)
    else FindYearFrom(text, from + 1)
  }

  /** The index of the first match of `/\d{4}/`, if any. */
  function FindYear(text: string): (r: Option<nat>)
    ensures r.Some? ==> IsFirstYear(text, r.value)
    ensures r.None? <==> NoYear(text)
  {
    FindYearFrom(text, 0)
  }

  /** The footer text after the page script has run with the given year. */
  function ReplaceFirstYear(text: string, year: int): (r: string)
    ensures CopyrightSign !in text ==> r == text
    ensures NoYear(text) ==> r == text
    ensures forall i :: CopyrightSign in text && IsFirstYear(text, i) ==>
      r == text[..i] + YearString(year) + text[i + 4..]
  {
    if CopyrightSign !in text then text
    else match FindYear(text)
      case None => text
      case Some(i) => text[..i] + YearString(year) + text[i + 4..]
  }

  /** The character just before the first four-digit run, if any, is not a
      digit: otherwise a run would start one place earlier. */
  lemma BeforeFirstYearNotDigit(text: string, i: int)
    requires IsFirstYear(text, i) && i > 0
    ensures !IsDigit(text[i - 1])
  {
    assert !YearAt(text, i - 1);
  }

  /** With a four-digit year the text keeps its length, and only the
      characters of the leftmost four-digit run may change. */
  lemma ReplaceOnlyFirstWindow(text: string, year: int, i: int)
    requires 1000 <= year <= 9999
    requires IsFirstYear(text, i)
    ensures |ReplaceFirstYear(text, year)| == |text|
    ensures forall k :: 0 <= k < |text| && !(i <= k < i + 4) ==> ReplaceFirstYear(text, year)[k] == text[k]
  {
    var r := ReplaceFirstYear(text, year);
    if CopyrightSign in text {
      var y := YearString(year);
      YearStringFourDigits(year);
      assert r == text[..i] + y + text[i + 4..];
      forall k | 0 <= k < |text| && !(i <= k < i + 4)
        ensures r[k] == text[k]
      {
        if k < i {
          assert r[k] == text[..i][k];
        } else {
          assert r[k] == text[i + 4..][k - i - 4];
        }
      }
    }
  }

  /** With a four-digit year the text keeps its length whether or not a run
      was found. */
  lemma ReplaceKeepsLength(text: string, year: int)
    requires 1000 <= year <= 9999
    ensures |ReplaceFirstYear(text, year)| == |text|
  {
    var f := FindYear(text);
    if f.Some? {
      ReplaceOnlyFirstWindow(text, year, f.value);
    }
  }

  /** After the rewrite the leftmost four-digit run is where it was, and it
      now holds the year. */
  lemma ReplacedYearIsFirst(text: string, year: int, i: int)
    requires 1000 <= year <= 9999
    requires CopyrightSign in text && IsFirstYear(text, i)
    ensures IsFirstYear(ReplaceFirstYear(text, year), i)
    ensures ReplaceFirstYear(text, year)[i..i + 4] == YearString(year)
  {
    var y := YearString(year);
    var r := ReplaceFirstYear(text, year);
    YearStringFourDigits(year);
    ReplaceOnlyFirstWindow(text, year, i);
    assert r[i..i + 4] == y;
    if i > 0 {
      BeforeFirstYearNotDigit(text, i);
    }
    forall k | 0 <= k < i
      ensures !YearAt(r, k)
    {
      assert !YearAt(text, k);
      if k + 4 <= i {
        assert r[k..k + 4] == text[k..k + 4];
      } else {
        // The run at `k` would cover index `i - 1`, which is not a digit.
        assert r[k..k + 4][i - 1 - k] == r[i - 1] == text[i - 1];
      }
    }
  }

  /** Running the rewrite twice with the same four-digit year gives the same
      footer as running it once. */
  lemma ReplaceIdempotent(text: string, year: int)
    requires 1000 <= year <= 9999
    ensures ReplaceFirstYear(ReplaceFirstYear(text, year), year) == ReplaceFirstYear(text, year)
  {
    var f := FindYear(text);
    if CopyrightSign in text && f.Some? {
      ReplacedYearIsFirst(text, year, f.value);
      CopyrightSignKept(text, year);
      CurrentFooterUnchanged(ReplaceFirstYear(text, year), year, f.value);
    }
  }

  /** A footer whose leftmost four-digit run already shows the year is left
      as it is. */
  lemma CurrentFooterUnchanged(text: string, year: int, i: int)
    requires IsFirstYear(text, i) && text[i..i + 4] == YearString(year)
    ensures ReplaceFirstYear(text, year) == text
  {
    assert text == text[..i] + text[i..i + 4] + text[i + 4..];
  }

  /** The copyright sign is never inside the replaced run, so the rewritten
      text still holds it. */
  lemma CopyrightSignKept(text: string, year: int)
    requires CopyrightSign in text
    ensures CopyrightSign in ReplaceFirstYear(text, year)
  {
    var f := FindYear(text);
    if f.Some? {
      var i := f.value;
      var s :| 0 <= s < |text| && text[s] == CopyrightSign;
      var y := YearString(year);
      assert !IsDigit(text[s]);
      if s < i {
        assert text[s] == text[..i][s];
      } else {
        assert text[s] == text[i + 4..][s - i - 4];
      }
    }
  }
}
