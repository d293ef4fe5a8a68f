/** `SharpAIPullModelResponse`: one progress record of a model pull, and the
    predicates and progress text the SDK derives from it. */
module PullProgress {
  import opened Common
  import opened Text

  /** The record's properties as deserialised: `Status` and `Error` default to `""`
      but may be set to null by the JSON; `Downloaded` (a `long?`) and `Percent`
      (a `decimal?`, 0.0 to 1.0) are absent unless the server sends them. */
  datatype PullModelResponse = PullModelResponse(
    status: Option<string>,
    downloaded: Option<int>,
    percent: Option<real>,
    error: Option<string>)

  /** A freshly constructed record. */
  const Fresh: PullModelResponse := PullModelResponse(Some(""), None, None, Some(""))

  /** `IsComplete()`: the status equals "success" ignoring case; a null status is not complete. */
  predicate IsComplete(r: PullModelResponse) {
    r.status.Some? && EqualsIgnoreCase(r.status.value, "success")
  }

  /** `HasError()`. */
  function HasError(r: PullModelResponse): (b: bool)
    ensures b <==> r.error.Some? && |r.error.value| > 0
  {
    !IsNullOrEmpty(r.error)
  }

  /** `GetProgressPercentage()`: the fraction scaled to 0-100, null without a fraction. */
  function GetProgressPercentage(r: PullModelResponse): (p: Option<real>)
    ensures p.None? <==> r.percent.None?
    ensures p.Some? ==> p.value == r.percent.value * 100.0
  {
    match r.percent
    case None => None
    case Some(f) => Some(f * 100.0)
  }

  /** The units of `FormatBytes`, indexed by the number of /1024 steps. */
  const Sizes: seq<string> := ["B", "KB", "MB", "GB", "TB"]

  function Pow1024(k: nat): (p: int)
    ensures p >= 1
  {
    if k == 0 then 1 else 1024 * Pow1024(k - 1)
  }

  /** The unit `FormatBytes` settles on, by integer thresholds: the largest `k <= 4`
      with `bytes >= 1024^k`, and 0 when `bytes < 1024` (negative counts included). */
  function UnitIndex(bytes: int): (k: nat)
    ensures k < |Sizes|
  {
    if bytes >= Pow1024(4) then 4
    else if bytes >= Pow1024(3) then 3
    else if bytes >= Pow1024(2) then 2
    else if bytes >= Pow1024(1) then 1
    else 0
  }

  /** What `FormatBytes` prints, before number formatting: the scaled amount and its unit. */
  function Scaled(bytes: int): (real, string) {
    (bytes as real / Pow1024(UnitIndex(bytes)) as real, Sizes[UnitIndex(bytes)])
  }

  /** Unit `k` (for `1 <= k <= 4`) is reached exactly when `bytes >= 1024^k`. */
  lemma UnitIndexThreshold(bytes: int, k: nat)
    requires 1 <= k <= 4
    ensures UnitIndex(bytes) >= k <==> bytes >= Pow1024(k)
  {
    PowMonotone(k, 4);
    if k <= 3 { PowMonotone(k, 3); }
    if k <= 2 { PowMonotone(k, 2); }
    PowMonotone(1, k);
    PowMonotone(2, if k < 2 then 2 else k);
    PowMonotone(3, if k < 3 then 3 else k);
  }

  lemma {:induction false} PowMonotone(a: nat, b: nat)
    requires a <= b
    ensures Pow1024(a) <= Pow1024(b)
    decreases b - a
  {
    if a < b {
      PowMonotone(a + 1, b);
    }
  }

  /** The count divided by 1024, `k` times over, as the loop computes it. */
  function Divided(b: real, k: nat): real {
    if k == 0 then b else Divided(b, k - 1) / 1024.0
  }

  /** One more /1024 keeps `len * 1024^order == bytes`. */
  lemma DivideStep(len: real, p: real, b: real)
    requires len * p == b
    ensures (len / 1024.0) * (1024.0 * p) == b
  {
  }

  /** Dividing `k` times by 1024 is dividing once by 1024^k. */
  lemma {:induction false} DividedIsQuotient(b: real, k: nat)
    ensures Divided(b, k) * Pow1024(k) as real == b
  {
    if k > 0 {
      DividedIsQuotient(b, k - 1);
      assert Pow1024(k) as real == 1024.0 * Pow1024(k - 1) as real;
      DivideStep(Divided(b, k - 1), Pow1024(k - 1) as real, b);
    }
  }

  /** Comparing the amount with 1024 compares the count with the next power. */
  lemma Scale(len: real, p: real, b: real)
    requires p > 0.0 && len * p == b
    ensures len >= 1024.0 ==> b >= 1024.0 * p
    ensures len < 1024.0 ==> b < 1024.0 * p
  {
    assert b - 1024.0 * p == (len - 1024.0) * p;
  }

  /** A product read as a quotient. */
  lemma Quotient(len: real, p: real, b: real)
    requires p > 0.0 && len * p == b
    ensures len == b / p
  {
  }

  /** The amount is at least 1 when the count is at least the divisor. */
  lemma AtLeastOne(len: real, p: real, b: real)
    requires p > 0.0 && len * p == b && b >= p
    ensures len >= 1.0
  {
    assert (len - 1.0) * p == b - p;
  }

  /** What the loop needs to know about the amount after `k` divisions: it is the
      quotient by 1024^k, it is at least 1024 exactly when the count reaches
      1024^(k + 1), and it is at least 1 once the count reaches 1024^k. */
  lemma DividedFacts(b: int, k: nat)
    ensures Divided(b as real, k) == b as real / Pow1024(k) as real
    ensures Divided(b as real, k) >= 1024.0 <==> b >= Pow1024(k + 1)
    ensures b >= Pow1024(k) ==> Divided(b as real, k) >= 1.0
  {
    var p := Pow1024(k) as real;
    var len := Divided(b as real, k);
    DividedIsQuotient(b as real, k);
    Scale(len, p, b as real);
    Quotient(len, p, b as real);
    assert Pow1024(k + 1) == 1024 * Pow1024(k);
    if b >= Pow1024(k) {
      AtLeastOne(len, p, b as real);
    }
  }

  /** `FormatBytes(bytes)`: divides by 1024 while the value is at least 1024 and a
      larger unit exists. The amount is `len`, computed exactly here (the source
      uses a `double`, where dividing by 1024 is exact and every threshold below
      2^53 is represented exactly); the `F2` number formatting is not modelled. */
  method FormatBytes(bytes: int) returns (len: real, unit: string)
    ensures (len, unit) == Scaled(bytes)
    ensures UnitIndex(bytes) > 0 ==> 1.0 <= len
    ensures UnitIndex(bytes) < 4 ==> len < 1024.0
  {
    len := bytes as real;
    var order: nat := 0;
    while len >= 1024.0 && order < |Sizes| - 1
      invariant order <= 4
      invariant len == Divided(bytes as real, order)
      invariant order > 0 ==> bytes >= Pow1024(order)
      invariant order <= UnitIndex(bytes)
    {
      DividedFacts(bytes, order);
      UnitIndexThreshold(bytes, order + 1);
      order := order + 1;
      len := len / 1024.0;
    }
    DividedFacts(bytes, order);
    if order < 4 {
      UnitIndexThreshold(bytes, order + 1);
    }
    unit := Sizes[order];
  }

  /** What `GetFormattedProgress()` shows: the downloaded amount and the percentage
      when both are known, else the status text ("Unknown" for a null status). */
  datatype Progress = Measured(amount: real, unit: string, percent: real) | StatusText(text: string)

  function GetFormattedProgress(r: PullModelResponse): (p: Progress)
    ensures p.Measured? <==> r.downloaded.Some? && r.percent.Some?
    ensures p.Measured? ==>
      (p.amount, p.unit) == Scaled(r.downloaded.value) && p.percent == r.percent.value * 100.0
    ensures p.StatusText? ==> p.text == (if r.status.Some? then r.status.value else "Unknown")
  {
    if r.downloaded.Some? && r.percent.Some? then
      var s := Scaled(r.downloaded.value);
      var pct := GetProgressPercentage(r);
      Measured(s.0, s.1, if pct.Some? then pct.value else 0.0)
    else if r.status.Some? then StatusText(r.status.value)
    else StatusText("Unknown")
  }

  /** `IsComplete` is exactly a case-insensitive match of the seven letters of "success". */
  lemma IsCompleteChars(r: PullModelResponse)
    ensures IsComplete(r) <==>
      r.status.Some? && |r.status.value| == 7 &&
      forall i :: 0 <= i < 7 ==> r.status.value[i] == "success"[i] || r.status.value[i] == "SUCCESS"[i]
  {
    if r.status.Some? && |r.status.value| == 7 {
      var s := r.status.value;
      forall i | 0 <= i < 7
        ensures ToUpperAscii(s[i]) == ToUpperAscii("success"[i])
            <==> (s[i] == "success"[i] || s[i] == "SUCCESS"[i])
      {
        assert 'a' <= "success"[i] <= 'z';
      }
    }
  }

  /** A freshly constructed record is neither complete nor failed, and shows its
      (empty) status. */
  lemma FreshRecord()
    ensures !IsComplete(Fresh) && !HasError(Fresh)
    ensures GetFormattedProgress(Fresh) == StatusText("")
    ensures GetProgressPercentage(Fresh).None?
  {
  }

  /** Records the server sends during a pull. */
  lemma SampleRecords()
    ensures IsComplete(PullModelResponse(Some("SUCCESS"), None, None, Some("")))
    ensures IsComplete(PullModelResponse(Some("Success"), None, None, None))
    ensures !IsComplete(PullModelResponse(Some("pulling manifest"), None, None, Some("")))
    ensures !IsComplete(PullModelResponse(None, None, None, None))
    ensures HasError(PullModelResponse(Some(""), None, None, Some("model not found")))
  {
    IsCompleteChars(PullModelResponse(Some("SUCCESS"), None, None, Some("")));
    IsCompleteChars(PullModelResponse(Some("Success"), None, None, None));
  }

  /** Sample unit choices: 1023 bytes stay in B, 1024 is 1 KB, 1.5 GiB is in GB. */
  lemma SampleUnits()
    ensures Scaled(1023) == (1023.0, "B")
    ensures Scaled(1024) == (1.0, "KB")
    ensures Scaled(1610612736) == (1.5, "GB")
    ensures Scaled(-5) == (-5.0, "B")
  {
    assert Pow1024(1) == 1024;
    assert Pow1024(2) == 1048576;
    assert Pow1024(3) == 1073741824;
    assert Pow1024(4) == 1099511627776;
  }
}
