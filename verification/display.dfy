/** The integer parts of the two display helpers used in the recordings
    table: whole minutes of a duration, and the unit a file size is shown
    in. */
module Display {
  import Decimal
  import Catalog

  /** Whole minutes of a duration in seconds, as Ruby's integer `/`
      computes them (rounding toward negative infinity). */
  function Minutes(duration: int): (m: int)
    ensures 60 * m <= duration < 60 * m + 60
  {
    duration / 60
  }

  /** The duration label, `"%d minutes"`. */
  function DurationLabel(duration: int): string {
    Decimal.FromInt(Minutes(duration)) + " minutes"
  }

  lemma DurationLabelReadsBack(d1: int, d2: int)
    requires DurationLabel(d1) == DurationLabel(d2)
    ensures Minutes(d1) == Minutes(d2)
  {
    var x, y := Decimal.FromInt(Minutes(d1)), Decimal.FromInt(Minutes(d2));
    assert |x| == |y|;
    assert x == DurationLabel(d1)[..|x|];
    assert y == DurationLabel(d2)[..|y|];
    Decimal.FromIntInjective(Minutes(d1), Minutes(d2));
  }

  datatype SizeUnit = Bytes | Kilobytes | Megabytes | Gigabytes

  /** A size scaled into its display unit. */
  datatype Scaled = Scaled(unit: SizeUnit, value: real)

  /** The size helper as the source computes it: convert to a real,
      and divide by 1024 while the value is at least 1023, at most three
      times. */
  function ScaleSize(size: int): Scaled {
    var b := size as real;
    if b < 1023.0 then Scaled(Bytes, b)
    else
      var k := b / 1024.0;
      if k < 1023.0 then Scaled(Kilobytes, k)
      else
        var m := k / 1024.0;
        if m < 1023.0 then Scaled(Megabytes, m)
        else Scaled(Gigabytes, m / 1024.0)
  }

  /** The unit chosen by integer thresholds on the byte count. */
  function UnitFor(size: int): (u: SizeUnit)
    ensures u == Bytes <==> size < 1023
    ensures u == Kilobytes <==> 1023 <= size < 1023 * 1024
    ensures u == Megabytes <==> 1023 * 1024 <= size < 1023 * 1024 * 1024
    ensures u == Gigabytes <==> 1023 * 1024 * 1024 <= size
  {
    if size < 1023 then Bytes
    else if size < 1023 * 1024 then Kilobytes
    else if size < 1023 * 1024 * 1024 then Megabytes
    else Gigabytes
  }

  function Divisor(u: SizeUnit): nat {
    match u
    case Bytes => 1
    case Kilobytes => 1024
    case Megabytes => 1024 * 1024
    case Gigabytes => 1024 * 1024 * 1024
  }

  /** The repeated division picks the unit the integer thresholds pick,
      and the shown value is the size divided by that unit's factor; below
      gigabytes it stays under 1023. */
  lemma ScaleSizeMatchesThresholds(size: int)
    ensures ScaleSize(size).unit == UnitFor(size)
    ensures ScaleSize(size).value == size as real / Divisor(UnitFor(size)) as real
    ensures ScaleSize(size).unit != Gigabytes ==> ScaleSize(size).value < 1023.0
  {
    var b := size as real;
    if b >= 1023.0 {
      var k := b / 1024.0;
      assert k < 1023.0 <==> b < 1023.0 * 1024.0;
      if k >= 1023.0 {
        var m := k / 1024.0;
        assert m == b / (1024.0 * 1024.0);
        assert m < 1023.0 <==> b < 1023.0 * 1024.0 * 1024.0;
        if m >= 1023.0 {
          assert m / 1024.0 == b / (1024.0 * 1024.0 * 1024.0);
        }
      }
    }
  }

  /** The size shown in a recording's cell of the listing. */
  function ListedSize(rec: Catalog.Recording): (s: Scaled)
    ensures s.unit == UnitFor(rec.filesize)
    ensures s.unit != Gigabytes ==> s.value < 1023.0
  {
    ScaleSizeMatchesThresholds(rec.filesize);
    ScaleSize(rec.filesize)
  }

  /** The duration shown in a recording's cell of the listing. */
  function ListedDuration(rec: Catalog.Recording): string {
    DurationLabel(rec.duration)
  }
}
