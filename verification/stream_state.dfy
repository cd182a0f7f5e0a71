/** The part of an `std::ostream`'s state the interpreter reads and writes:
    width, precision, fill and the format flags, plus the two extra flags for
    printf behaviours a stream cannot express. */
module StreamStates {

  /** The `adjustfield` group of format flags. */
  datatype Adjust = AdjustNone | Left | Right | Internal

  /** The `basefield` group of format flags. */
  datatype Base = BaseNone | Dec | Oct | Hex

  /** The `floatfield` group of format flags. */
  datatype FloatField = FloatNone | Fixed | Scientific

  /** Width, precision, fill and flags of a stream. `otherFlags` stands for
      the flags the interpreter never touches (boolalpha, skipws, unitbuf). */
  datatype StreamState = StreamState(
    width: int,
    precision: int,
    fill: char,
    adjust: Adjust,
    base: Base,
    floatField: FloatField,
    showBase: bool,
    showPoint: bool,
    showPos: bool,
    uppercase: bool,
    otherFlags: nat)

  /** The `ExtraFormatFlags` bit set. */
  datatype ExtraFlags = ExtraFlags(truncateToPrecision: bool, spacePadPositive: bool) {
    predicate Any() {
      truncateToPrecision || spacePadPositive
    }
  }

  const NoExtraFlags: ExtraFlags := ExtraFlags(false, false)

  /** The stream state every conversion spec starts from: width 0, precision
      6, fill ' ', and every flag the interpreter owns cleared. */
  function ResetState(st: StreamState): (r: StreamState)
    ensures r.width == 0 && r.precision == 6 && r.fill == ' '
    ensures r.adjust == AdjustNone && r.base == BaseNone && r.floatField == FloatNone
    ensures !r.showBase && !r.showPoint && !r.showPos && !r.uppercase
    ensures r.otherFlags == st.otherFlags
  {
    StreamState(0, 6, ' ', AdjustNone, BaseNone, FloatNone, false, false, false, false, st.otherFlags)
  }

  /** `out << text` for a character sequence: the text padded with the fill
      character up to the stream width, the padding after the text when the
      adjustment is left and before it otherwise. */
  function InsertString(text: string, st: StreamState): (r: string)
    ensures |r| == if st.width > |text| then st.width else |text|
    ensures st.adjust == Left ==> r[..|text|] == text
    ensures st.adjust == Left ==> forall k :: |text| <= k < |r| ==> r[k] == st.fill
    ensures st.adjust != Left ==> r[|r| - |text|..] == text
    ensures st.adjust != Left ==> forall k :: 0 <= k < |r| - |text| ==> r[k] == st.fill
  {
    if st.width <= |text| then text
    else
      var pad := seq(st.width - |text|, _ => st.fill);
      if st.adjust == Left then text + pad else pad + text
  }
}
