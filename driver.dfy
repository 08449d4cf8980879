/**
 * The driver in main.cc around the resampler: the command-line dispatch of
 * main, the band check of run_band, and run_band's per-pixel loops. Those
 * loops turn stored samples into physical values (a fill value becomes
 * missing, NaN in the source) and merge the resampled values back into 16-bit
 * integers or, for band M13, floats. A missing value is None here.
 */
module Driver {
  import opened Viirs
  import opened Wrappers
  import opened FileNames

  /** An unsigned 16-bit sample. */
  type UShort = x: int | 0 <= x <= 65535

  /** |x|. */
  function Abs(x: int): int
  {
    if x < 0 then -x else x
  }

  /** C's round: to the nearest integer, halfway cases away from zero. */
  function Round(x: real): (r: int)
    ensures r as real - 0.5 <= x <= r as real + 0.5
    ensures x == r as real - 0.5 ==> x > 0.0
    ensures x == r as real + 0.5 ==> x < 0.0
  {
    if x >= 0.0 then (x + 0.5).Floor else -((0.5 - x).Floor)
  }

  /** Round leaves an integer as it is. */
  lemma RoundInteger(n: int)
    ensures Round(n as real) == n
  {
  }

  /** The store of quantised value j into an unsigned short: clamped into [0, 65535]. */
  function Clamp16(j: int): (r: UShort)
    ensures 0 <= j <= 65535 ==> r == j
  {
    if j < 0 then 0 else if j > 65535 then 65535 else j
  }

  /** The clamped value is the unsigned short nearest to j. */
  lemma ClampNearest(j: int, u: UShort)
    ensures Abs(Clamp16(j) - j) <= Abs(u - j)
  {
  }

  /**
   * The 16-bit integer a physical value v goes back to: (v - offset) /
   * scale, rounded and clamped. The scale must not be zero.
   */
  function Quantise(v: real, scale: real, offset: real): UShort
    requires scale != 0.0
  {
    Clamp16(Round((v - offset) / scale))
  }

  /** A stored sample scaled to physical units and quantised again is the sample. */
  lemma QuantiseScaled(val: UShort, scale: real, offset: real)
    requires scale != 0.0
    ensures Quantise(scale * val as real + offset, scale, offset) == val
  {
    assert (scale * val as real + offset - offset) / scale == val as real;
    RoundInteger(val);
  }

  /** How run_band treats a band: the quantity it resamples and whether it is stored scaled as 16-bit integers. */
  datatype Quantity = Reflectance | BrightnessTemperature
  datatype BandPlan = BandPlan(band: int, quantity: Quantity, scaled: bool)

  /**
   * The band check of run_band: a band outside M1..M16 is fatal (None,
   * exit status 2). Bands below M12 resample reflectance, the others
   * brightness temperature; all but M13 are 16-bit integers with a scale
   * and an offset.
   */
  function PlanBand(band: int): (p: Option<BandPlan>)
    ensures p.None? <==> band < 1 || band > 16
    ensures p.Some? ==> p.value.band == band
    ensures p.Some? ==> (p.value.quantity == Reflectance <==> band <= 11) && (p.value.scaled <==> band != 13)
  {
    if band < 1 || band > 16 then None
    else Some(BandPlan(band, if band < 12 then Reflectance else BrightnessTemperature, band != 13))
  }

  /** A band file named "...SVMnn..." in the npp convention is planned as band nn. */
  lemma PlanOfFileName(pre: string, band: int, post: string)
    requires 1 <= band <= 16 && |post| >= 1
    requires forall i :: 0 <= i < |post| ==> post[i] != 'S'
    ensures PlanBand(BandName(pre + "SVM" + TwoDigits(band) + post)).Some?
    ensures PlanBand(BandName(pre + "SVM" + TwoDigits(band) + post)).value.band == band
  {
    BandNameOfFileName(pre, band, post);
  }

  /** The physical value of a stored 16-bit sample: missing for a fill value, scale * val + offset otherwise. */
  function Physical(val: UShort, fills: set<UShort>, scale: real, offset: real): Option<real>
  {
    if val in fills then None else Some(scale * val as real + offset)
  }

  /** The physical value of a stored M13 float: missing for a fill value, the value itself otherwise. */
  function PhysicalFloat(val: real, fills: set<real>): Option<real>
  {
    if val in fills then None else Some(val)
  }

  /** The first loop of run_band for scaled bands: every stored sample to its physical value. */
  method ToPhysical(buffer: seq<UShort>, fills: set<UShort>, scale: real, offset: real) returns (img: array<Option<real>>)
    ensures img.Length == |buffer|
    ensures forall ix :: 0 <= ix < |buffer| ==> img[ix] == Physical(buffer[ix], fills, scale, offset)
  {
    img := new Option<real>[|buffer|](ix => None);
    for ix := 0 to |buffer|
      invariant forall k :: 0 <= k < ix ==> img[k] == Physical(buffer[k], fills, scale, offset)
    {
      if buffer[ix] in fills {
        img[ix] := None;
      } else {
        img[ix] := Some(scale * buffer[ix] as real + offset);
      }
    }
  }

  /** The first loop of run_band for band M13: every stored float to its physical value. */
  method ToPhysicalFloat(buffer: seq<real>, fills: set<real>) returns (img: array<Option<real>>)
    ensures img.Length == |buffer|
    ensures forall ix :: 0 <= ix < |buffer| ==> img[ix] == PhysicalFloat(buffer[ix], fills)
  {
    img := new Option<real>[|buffer|](ix => None);
    for ix := 0 to |buffer|
      invariant forall k :: 0 <= k < ix ==> img[k] == PhysicalFloat(buffer[k], fills)
    {
      if buffer[ix] in fills {
        img[ix] := None;
      } else {
        img[ix] := Some(buffer[ix]);
      }
    }
  }

  /**
   * The value run_band writes back for one pixel of a scaled band, from
   * the sorted original s and the resampled value v: s when s is a fill
   * value other than the deletion-zone marker or v is missing, v quantised
   * otherwise.
   */
  function Merged(s: UShort, v: Option<real>, fills: set<UShort>, scale: real, offset: real): UShort
    requires scale != 0.0
  {
    if (s in fills && s != DELETION_ZONE_INT) || v.None? then s else Quantise(v.value, scale, offset)
  }

  /** The value run_band writes back for one pixel of band M13: as Merged, with no quantisation. */
  function MergedFloat(s: real, v: Option<real>, fills: set<real>): real
  {
    if (s in fills && s != DELETION_ZONE_FLOAT) || v.None? then s else v.value
  }

  /**
   * A pixel the resampler left as it was goes back to the stored sample,
   * fill value or not.
   */
  lemma MergeKeepsUntouched(s: UShort, fills: set<UShort>, scale: real, offset: real)
    requires scale != 0.0
    ensures Merged(s, Physical(s, fills, scale, offset), fills, scale, offset) == s
  {
    if s !in fills {
      QuantiseScaled(s, scale, offset);
    }
  }

  /** The same for band M13. */
  lemma MergeFloatKeepsUntouched(s: real, fills: set<real>)
    ensures MergedFloat(s, PhysicalFloat(s, fills), fills) == s
  {
  }

  /**
   * A deletion-zone pixel, a fill value the resampler is meant to fill,
   * takes the quantised resampled value when there is one.
   */
  lemma MergeFillsDeletionZone(v: real, fills: set<UShort>, scale: real, offset: real)
    requires scale != 0.0
    ensures Merged(DELETION_ZONE_INT, Some(v), fills, scale, offset) == Quantise(v, scale, offset)
  {
  }

  /** The merge loop of run_band for scaled bands, into buffer. */
  method MergeBand(simg: seq<UShort>, img: seq<Option<real>>, fills: set<UShort>, scale: real, offset: real,
                   buffer: array<UShort>)
    requires |simg| == |img| == buffer.Length && scale != 0.0
    modifies buffer
    ensures forall ix :: 0 <= ix < buffer.Length ==> buffer[ix] == Merged(simg[ix], img[ix], fills, scale, offset)
  {
    for ix := 0 to buffer.Length
      invariant forall k :: 0 <= k < ix ==> buffer[k] == Merged(simg[k], img[k], fills, scale, offset)
    {
      if (simg[ix] in fills && simg[ix] != DELETION_ZONE_INT) || img[ix].None? {
        buffer[ix] := simg[ix];
      } else {
        var j := Round((img[ix].value - offset) / scale);
        if j < 0 {
          j := 0;
        }
        if j > 65535 {
          j := 65535;
        }
        buffer[ix] := j;
      }
    }
  }

  /** The merge loop of run_band for band M13, into bufferf. */
  method MergeBandFloat(simgf: seq<real>, img: seq<Option<real>>, fills: set<real>, bufferf: array<real>)
    requires |simgf| == |img| == bufferf.Length
    modifies bufferf
    ensures forall ix :: 0 <= ix < bufferf.Length ==> bufferf[ix] == MergedFloat(simgf[ix], img[ix], fills)
  {
    for ix := 0 to bufferf.Length
      invariant forall k :: 0 <= k < ix ==> bufferf[k] == MergedFloat(simgf[k], img[k], fills)
    {
      if (simgf[ix] in fills && simgf[ix] != DELETION_ZONE_FLOAT) || img[ix].None? {
        bufferf[ix] := simgf[ix];
      } else {
        bufferf[ix] := img[ix].value;
      }
    }
  }

  /** A two-character argument that starts with '-'. */
  predicate IsFlag(a: string)
  {
    |a| == 2 && a[0] == '-'
  }

  /**
   * What main of main.cc goes on to do. Usage ends with exit status 2,
   * the version with 0; the others run and exit with 0.
   */
  datatype Action =
    | Usage
    | ShowVersion
    | ReorderGhrsst(file: string)
    | ReorderAcspo(file: string)
    | RunTcGeo(gmodo: string, gmtco: string)
    | RunBand(h5file: string, geofile: string, extra: bool)

  /** The result of reading the flags: an action a flag ends the program with, or the operands left and the -x setting. */
  datatype Parsed = Ended(action: Action) | Operands(rest: seq<string>, extra: bool)

  /** The flag loop of main: -V ends with the version, -x asks for extras, -- ends the flags, any other flag is a usage error. */
  function ParseFlags(args: seq<string>, extra: bool): Parsed
    decreases |args|
  {
    if |args| == 0 || !IsFlag(args[0]) then Operands(args, extra)
    else if args[0][1] == 'V' then Ended(ShowVersion)
    else if args[0][1] == 'x' then ParseFlags(args[1..], true)
    else if args[0][1] == '-' then Operands(args[1..], extra)
    else Ended(Usage)
  }

  /**
   * The dispatch of main on the operands: one GHRSST or ACSPO file is
   * reordered, a GMODO and a GMTCO file run the terrain-corrected
   * geolocation, any other two operands are a geolocation file and a band
   * file, anything else is a usage error.
   */
  function Dispatch(rest: seq<string>, extra: bool): Action
  {
    if |rest| == 1 && GetFileType(rest[0]) == L2pGhrsst then ReorderGhrsst(rest[0])
    else if |rest| == 1 && GetFileType(rest[0]) == Acspo then ReorderAcspo(rest[0])
    else if |rest| == 2 && GetFileType(rest[0]) == Gmodo && GetFileType(rest[1]) == Gmtco then RunTcGeo(rest[0], rest[1])
    else if |rest| != 2 then Usage
    else RunBand(rest[1], rest[0], extra)
  }

  /** What main does with the arguments after the program name. */
  function Command(args: seq<string>): Action
  {
    match ParseFlags(args, false)
    case Ended(a) => a
    case Operands(rest, extra) => Dispatch(rest, extra)
  }

  /** The argument handling of main: consumes flags from the front of the arguments, then dispatches on what is left. */
  method ParseCommandLine(args: seq<string>) returns (a: Action)
    ensures a == Command(args)
  {
    var extra := false;
    var i := 0;
    while i < |args| && IsFlag(args[i])
      invariant 0 <= i <= |args|
      invariant ParseFlags(args, false) == ParseFlags(args[i..], extra)
    {
      var flag := args[i];
      i := i + 1;
      assert args[i - 1..][1..] == args[i..];
      if flag[1] == 'V' {
        return ShowVersion;
      } else if flag[1] == 'x' {
        extra := true;
      } else if flag[1] == '-' {
        return Dispatch(args[i..], extra);
      } else {
        return Usage;
      }
    }
    a := Dispatch(args[i..], extra);
  }

  /**
   * Any number of -x flags before operands that are not a flag: the
   * operands are dispatched, with extras asked for exactly when there was
   * a flag.
   */
  lemma {:induction false} ExtraFlags(n: nat, rest: seq<string>)
    requires |rest| == 0 || !IsFlag(rest[0])
    ensures Command(seq(n, i => "-x") + rest) == Dispatch(rest, n > 0)
  {
    ExtraFlagsFrom(n, rest, false);
  }

  /** ParseFlags over n flags -x with the setting extra so far. */
  lemma {:induction false} ExtraFlagsFrom(n: nat, rest: seq<string>, extra: bool)
    requires |rest| == 0 || !IsFlag(rest[0])
    ensures ParseFlags(seq(n, i => "-x") + rest, extra) == Operands(rest, extra || n > 0)
  {
    var args := seq(n, i => "-x") + rest;
    if n > 0 {
      assert args[0] == "-x" && IsFlag(args[0]);
      assert args[1..] == seq(n - 1, i => "-x") + rest;
      ExtraFlagsFrom(n - 1, rest, true);
    } else {
      assert args == rest;
    }
  }

  /** After "--" every argument is an operand, even one that looks like a flag. */
  lemma EndOfFlags(rest: seq<string>)
    ensures Command(["--"] + rest) == Dispatch(rest, false)
  {
    assert (["--"] + rest)[1..] == rest;
  }

  /**
   * Two plain operands that are not a GMODO and GMTCO pair run a band: the
   * first is the geolocation file, the second the band file.
   */
  lemma BandRun(geofile: string, h5file: string)
    requires !IsFlag(geofile)
    requires !(GetFileType(geofile) == Gmodo && GetFileType(h5file) == Gmtco)
    ensures Command([geofile, h5file]) == RunBand(h5file, geofile, false)
  {
  }
}
