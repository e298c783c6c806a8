/**
 * The outside temperature service: registers 7 and 8 hold DPT 9.001
 * temperatures.  A reading is dropped (None) when the register is 0x7FFF
 * or 0, when it decodes outside -50.00 to 60.00 degrees, or when it sits
 * within 0.01 degrees of the codec's extreme values; any exception on the
 * way also gives None.  Temperatures are in hundredths of a degree.
 *
 * The extreme values are read from two attributes of the codec module that
 * the codec does not define.  They are a parameter here: `None` stands for
 * the attributes being absent, in which case looking them up raises
 * `AttributeError`, which the register read catches.
 */
module TemperatureService {
  import opened Wrappers
  import opened PyData
  import opened Registers
  import opened Const
  import opened Dpt9001

  const MinReasonableTemp := -5000
  const MaxReasonableTemp := 6000

  /** The two codec extremes looked up by the sanity check, in hundredths. */
  datatype DptExtremes = DptExtremes(max: int, min: int)

  /** An `AttributeError` from looking up a missing codec constant. */
  datatype TemperatureError = MissingConstant

  /** `_validate_temperature`: range first, then the two extremes. */
  function ValidateTemperature(t: int, extremes: Option<DptExtremes>): (r: Result<Option<int>, TemperatureError>)
    ensures (t < MinReasonableTemp || t > MaxReasonableTemp) ==> r == Success(None)
    ensures MinReasonableTemp <= t <= MaxReasonableTemp && extremes.None? ==> r == Failure(MissingConstant)
    ensures extremes.Some? ==>
      (r == Success(Some(t)) <==> MinReasonableTemp <= t <= MaxReasonableTemp &&
                                  Abs(t - extremes.value.max) >= 1 && Abs(t - extremes.value.min) >= 1)
    ensures extremes.Some? ==> r.Success? && (r.value.Some? ==> r.value == Some(t))
  {
    if t < MinReasonableTemp || t > MaxReasonableTemp then Success(None)
    else if extremes.None? then Failure(MissingConstant)
    else if Abs(t - extremes.value.max) < 1 then Success(None)
    else if Abs(t - extremes.value.min) < 1 then Success(None)
    else Success(Some(t))
  }

  /**
   * `_read_temperature_register`: a read outside the register space raises
   * and, like every other exception, reads as None.
   */
  function ReadTemperatureRegister(regs: seq<int>, address: int, extremes: Option<DptExtremes>): (r: Option<int>)
    ensures !InRange(regs, address, 1) ==> r.None?
    ensures InRange(regs, address, 1) && (regs[address] == 0x7FFF || regs[address] == 0) ==> r.None?
    ensures r.Some? ==> InRange(regs, address, 1) && r.value == DecodeHundredths(regs[address])
    ensures r.Some? ==> MinReasonableTemp <= r.value <= MaxReasonableTemp
  {
    if !InRange(regs, address, 1) then None
    else
      var raw := regs[address];
      if raw == 0x7FFF || raw == 0 then None
      else match ValidateTemperature(DecodeHundredths(raw), extremes)
        case Failure(_) => None
        case Success(t) => t
  }

  /** `TemperatureData`: the two readings. */
  datatype TemperatureData = TemperatureData(outside: Option<int>, filteredOutside: Option<int>)

  /** `get_outside_temperature_data`. */
  function GetOutsideTemperatureData(regs: seq<int>, extremes: Option<DptExtremes>): (d: TemperatureData)
    ensures d.outside == ReadTemperatureRegister(regs, OutsideTemperatureAddr, extremes)
    ensures d.filteredOutside == ReadTemperatureRegister(regs, FilteredOutsideTemperatureAddr, extremes)
  {
    TemperatureData(ReadTemperatureRegister(regs, OutsideTemperatureAddr, extremes),
                    ReadTemperatureRegister(regs, FilteredOutsideTemperatureAddr, extremes))
  }

  /** With the constants missing, as the codec module is written, no reading ever gets through. */
  lemma AsWrittenAlwaysNone(regs: seq<int>, address: int)
    ensures ReadTemperatureRegister(regs, address, None) == None
  {
  }

  /** A plain 21.50 degree reading (raw 3123) shows it. */
  lemma AsWrittenDropsValidReading(regs: seq<int>)
    requires |regs| == RegisterCount && regs[OutsideTemperatureAddr] == 3123
    ensures DecodeHundredths(3123) == 2150
    ensures ReadTemperatureRegister(regs, OutsideTemperatureAddr, None) == None
    ensures ReadTemperatureRegister(regs, OutsideTemperatureAddr, Some(CodecExtremes)) == Some(2150)
  {
    EncodeTemperature();
    CodecExtremesFarOff();
  }

  /** The extremes the codec's own range check uses: 670760.96 and -671088.64 degrees. */
  const CodecExtremes := DptExtremes(MaxHundredths, MinHundredths)

  lemma CodecExtremesFarOff()
    ensures CodecExtremes.max > MaxReasonableTemp + 1 && CodecExtremes.min < MinReasonableTemp - 1
  {
  }

  /**
   * With the extremes defined and outside the reasonable range, as the
   * codec's are, the extreme checks never fire: a reading gets through
   * exactly when its register is in range, is neither 0x7FFF nor 0, and
   * decodes to -50.00 .. 60.00 degrees.
   */
  lemma CorrectedAccepts(regs: seq<int>, address: int, ext: DptExtremes)
    requires ext.max > MaxReasonableTemp + 1 && ext.min < MinReasonableTemp - 1
    ensures ReadTemperatureRegister(regs, address, Some(ext)).Some? <==>
      InRange(regs, address, 1) && regs[address] != 0x7FFF && regs[address] != 0 &&
      MinReasonableTemp <= DecodeHundredths(regs[address]) <= MaxReasonableTemp
  {
  }

  /** A reading at an extreme is dropped whatever the register holds. */
  lemma ExtremeDropped(regs: seq<int>, address: int, ext: DptExtremes)
    requires InRange(regs, address, 1)
    requires DecodeHundredths(regs[address]) == ext.max || DecodeHundredths(regs[address]) == ext.min
    ensures ReadTemperatureRegister(regs, address, Some(ext)) == None
  {
  }

  /** The two readings are independent: each depends on its own register only. */
  lemma ReadingsIndependent(regs: seq<int>, extremes: Option<DptExtremes>, i: int, v: int)
    requires |regs| == RegisterCount && 0 <= i < RegisterCount
    ensures i != OutsideTemperatureAddr ==>
      GetOutsideTemperatureData(regs[i := v], extremes).outside == GetOutsideTemperatureData(regs, extremes).outside
    ensures i != FilteredOutsideTemperatureAddr ==>
      GetOutsideTemperatureData(regs[i := v], extremes).filteredOutside == GetOutsideTemperatureData(regs, extremes).filteredOutside
  {
  }
}
