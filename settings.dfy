/** The plugin's one setting: how many parent folders a tab title shows. */
module Settings {
  import opened JsNumber

  datatype Option<T> = None | Some(value: T)

  /** TabFilePathSettings. The depth holds whatever JavaScript value was
      stored, so it may be non-finite or not a number at all. */
  datatype TabFilePathSettings = TabFilePathSettings(depth: Number)

  /** DEFAULT_SETTINGS: one parent folder. */
  const DefaultSettings: TabFilePathSettings := TabFilePathSettings(Int(1))

  /** The object loadData() gives back: its `depth` key may be missing. */
  datatype StoredData = StoredData(depth: Option<Number>)

  /** `Object.assign({}, DEFAULT_SETTINGS, loaded)`, with `None` for a load
      that found nothing. */
  function MergeSettings(loaded: Option<StoredData>): (s: TabFilePathSettings)
    ensures loaded.None? || loaded.value.depth.None? ==> s == DefaultSettings
    ensures loaded.Some? && loaded.value.depth.Some? ==> s.depth == loaded.value.depth.value
  {
    match loaded
    case None => DefaultSettings
    case Some(data) =>
      match data.depth
      case None => DefaultSettings
      case Some(d) => DefaultSettings.(depth := d)
  }

  /** The object saveData(this.settings) writes; it loads back unchanged. */
  function Persisted(s: TabFilePathSettings): (r: StoredData)
    ensures MergeSettings(Some(r)) == s
  {
    StoredData(Some(s.depth))
  }

  /** `Number.isFinite(parsed) ? Math.max(parsed, 0) : 0`. */
  function ClampDepth(parsed: Number): (d: nat)
    ensures IsFinite(parsed) && parsed.value >= 0 ==> d == parsed.value
    ensures !IsFinite(parsed) || parsed.value <= 0 ==> d == 0
  {
    if IsFinite(parsed) then (if parsed.value > 0 then parsed.value else 0) else 0
  }

  /** The depth the settings field's text sets. */
  function DepthFromField(value: string): nat
  {
    ClampDepth(ParseInt(value))
  }

  /** The field sets a positive depth exactly when the text parses to a
      positive finite number, and that depth is the number parsed. */
  lemma DepthFromFieldPositive(value: string)
    ensures DepthFromField(value) > 0 <==> ParseInt(value).Int? && ParseInt(value).value > 0
    ensures DepthFromField(value) > 0 ==> ParseInt(value) == Int(DepthFromField(value))
    ensures DepthFromField(value) < OverflowBound
  {
  }

  /** Text that starts with digits sets the depth they spell, whatever follows
      them, as long as the number is finite as a double. */
  lemma DepthFromDigits(ds: string, rest: string)
    requires ds != [] && AllDigits(ds)
    requires rest == [] || !IsDecimalDigit(rest[0])
    requires DigitsValue(ds) < OverflowBound
    ensures DepthFromField(ds + rest) == DigitsValue(ds)
  {
    ParseIntDigits(ds, rest);
  }

  /** White space and a '+' before the digits change nothing; a '-' sets 0. */
  lemma DepthFromSignedDigits(w: string, sign: string, ds: string, rest: string)
    requires forall i :: 0 <= i < |w| ==> IsStrWhiteSpace(w[i])
    requires sign == "" || sign == "+" || sign == "-"
    requires ds != [] && AllDigits(ds)
    requires rest == [] || !IsDecimalDigit(rest[0])
    requires DigitsValue(ds) < OverflowBound
    ensures DepthFromField(w + sign + ds + rest) == if sign == "-" then 0 else DigitsValue(ds)
  {
    ParseIntSigned(w, sign, ds, rest);
  }

  /** A digit run too long for a double reads as Infinity, which is not
      finite, so the depth falls back to 0. */
  lemma DepthFromHugeDigits(ds: string)
    requires ds != [] && AllDigits(ds)
    requires DigitsValue(ds) >= OverflowBound
    ensures DepthFromField(ds) == 0
  {
    assert ds + [] == ds;
    ParseIntDigits(ds, []);
  }

  /** Text with no digits after optional white space and sign sets 0. */
  lemma DepthFromNonNumeric(value: string)
    requires var u := Unsigned(TrimStart(value));
             u == [] || !IsDecimalDigit(u[0])
    ensures DepthFromField(value) == 0
  {
    ParseIntNoDigits(value);
  }

  /** A negative number sets 0. */
  lemma DepthFromNegative(value: string)
    requires TrimStart(value) != [] && TrimStart(value)[0] == '-'
    ensures DepthFromField(value) == 0
  {
    ParseIntNegative(value);
  }

  /** Submitting the text the field shows for a depth keeps that depth. */
  lemma DepthFieldRoundTrip(n: nat)
    requires n < 1_000_000_000_000_000_000_000
    ensures DepthFromField(DecimalText(n)) == n
  {
    ParseIntDecimalText(n);
  }

  /** A leading digit run is read and the rest ignored: "12abc" sets 12. */
  lemma DepthFieldTrailingLetters()
    ensures DepthFromField("12abc") == 12
  {
    var ds, rest := "12", "abc";
    assert AllDigits(ds) && !IsDecimalDigit(rest[0]);
    assert DigitsValue(ds) == 12 by {
      assert ds[..1] == "1";
      assert DigitsValue(ds[..1]) == 1;
    }
    assert ds + rest == "12abc";
    DepthFromDigits(ds, rest);
  }

  /** "3.9" sets 3: the fraction is not read. */
  lemma DepthFieldFraction()
    ensures DepthFromField("3.9") == 3
  {
    var ds, rest := "3", ".9";
    assert DigitsValue(ds) == 3;
    assert ds + rest == "3.9";
    DepthFromDigits(ds, rest);
  }

  /** With radix 10 no hexadecimal prefix is recognised: "0x1A" sets 0. */
  lemma DepthFieldHexPrefix()
    ensures DepthFromField("0x1A") == 0
  {
    var ds, rest := "0", "x1A";
    assert DigitsValue(ds) == 0;
    assert ds + rest == "0x1A";
    DepthFromDigits(ds, rest);
  }

  /** "-3", "abc" and the empty field all set 0. */
  lemma DepthFieldZeroExamples()
    ensures DepthFromField("-3") == 0
    ensures DepthFromField("abc") == 0
    ensures DepthFromField("") == 0
  {
    assert !IsStrWhiteSpace("-3"[0]) && TrimStart("-3") == "-3";
    DepthFromNegative("-3");
    assert !IsStrWhiteSpace("abc"[0]) && Unsigned(TrimStart("abc")) == "abc";
    DepthFromNonNumeric("abc");
    assert Unsigned(TrimStart("")) == "";
    DepthFromNonNumeric("");
  }
}
