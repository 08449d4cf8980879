/**
 * The stand-alone program of viirsresam.cc: argument parsing with -g, the
 * geolocation file name, the destriping parameter table read by run, the
 * band checks that end run early, and the loops that scale the band to
 * physical values and quantise the resampled values back to 16 bits.
 */
module ViirsResam {
  import opened Wrappers
  import opened FileNames
  import Driver

  /** What main of viirsresam.cc goes on to do: usage (exit status 2), or run on a band file and a parameter file. */
  datatype Invocation = Usage | Run(h5file: string, paramfile: string, gfile: Option<string>)

  /** The operands left after the flags: exactly a band file and a parameter file. */
  function Operands(rest: seq<string>, gfile: Option<string>): Invocation
  {
    if |rest| != 2 then Usage else Run(rest[0], rest[1], gfile)
  }

  /** The flag loop of main: -g takes the next argument as the geolocation file, -- ends the flags, any other flag is a usage error. */
  function ParseArgs(args: seq<string>, gfile: Option<string>): Invocation
    decreases |args|
  {
    if |args| == 0 || !Driver.IsFlag(args[0]) then Operands(args, gfile)
    else if args[0][1] == '-' then Operands(args[1..], gfile)
    else if args[0][1] == 'g' then (if |args| < 2 then Usage else ParseArgs(args[2..], Some(args[1])))
    else Usage
  }

  /** The geolocation file run reads: the -g argument if given, else the name derived from the band file. */
  function GeoFile(h5file: string, gfile: Option<string>): string
  {
    match gfile
    case Some(g) => g
    case None => GeoFileName(h5file)
  }

  /**
   * The argument handling of main: consumes flags from the front of the
   * arguments, checks the operands and builds the geolocation file name;
   * on a run, geofile is the name passed to run.
   */
  method ParseCommandLine(args: seq<string>) returns (inv: Invocation, geofile: string)
    ensures inv == ParseArgs(args, None)
    ensures inv.Run? ==> geofile == GeoFile(inv.h5file, inv.gfile)
  {
    var gfile: Option<string> := None;
    var i := 0;
    while i < |args| && Driver.IsFlag(args[i])
      invariant 0 <= i <= |args|
      invariant ParseArgs(args, None) == ParseArgs(args[i..], gfile)
    {
      var flag := args[i];
      i := i + 1;
      assert args[i - 1..][1..] == args[i..];
      if flag[1] == '-' {
        break;
      } else if flag[1] == 'g' {
        if i >= |args| {
          return Usage, [];
        }
        assert args[i - 1..][2..] == args[i + 1..];
        gfile := Some(args[i]);
        i := i + 1;
      } else {
        return Usage, [];
      }
    }
    inv := Operands(args[i..], gfile);
    geofile := [];
    if inv.Run? {
      match gfile {
        case Some(g) =>
          geofile := g;
        case None =>
          var buf := DeriveGeoFile(inv.h5file);
          geofile := buf[..];
      }
    }
  }

  /** With -g the given name is the geolocation file, whatever the band file is called. */
  lemma GivenGeoFile(g: string, h5file: string, paramfile: string)
    requires !Driver.IsFlag(h5file)
    ensures ParseArgs(["-g", g, h5file, paramfile], None) == Run(h5file, paramfile, Some(g))
    ensures GeoFile(h5file, Some(g)) == g
  {
    var args := ["-g", g, h5file, paramfile];
    assert Driver.IsFlag(args[0]) && args[0][1] == 'g';
    assert args[2..] == [h5file, paramfile];
  }

  /** The destriping parameters of one band: Ndet, Niter, NEdQ, Tx, Ty, Qmin and Qmax. */
  datatype BandParams = BandParams(ndet: int, niter: int, nedq: real, tx: real, ty: real, qmin: real, qmax: real)

  /**
   * One line of the parameter file as fscanf reads it: the band number
   * (None when none can be read) and the seven parameters (None when fewer
   * than seven can be read).
   */
  datatype ParamLine = ParamLine(band: Option<int>, params: Option<BandParams>)

  /** run reads at most this many lines of parameters. */
  const MAX_PARAM_LINES: int := 16

  /** The size of the isband array and the parameter arrays in run. */
  const TABLE_SIZE: int := 40

  /** The number of isband entries run clears before reading: 0..15, which leaves out band 16. */
  const CLEARED_AS_WRITTEN: int := 16

  /** The number of entries that must be cleared for every band 1..16 to start out absent. */
  const CLEARED: int := 17

  /** A line run accepts: a band number in 1..16 and all seven parameters. */
  predicate GoodLine(l: ParamLine)
  {
    l.band.Some? && 1 <= l.band.value <= 16 && l.params.Some?
  }

  /** The number of lines run accepts from line i on: it stops at the first bad line, at the end of the file or after 16 lines. */
  function AcceptedFrom(lines: seq<ParamLine>, i: nat): (k: nat)
    requires i <= MAX_PARAM_LINES && i <= |lines|
    ensures i <= k <= MAX_PARAM_LINES && k <= |lines|
    ensures forall j :: i <= j < k ==> GoodLine(lines[j])
    ensures k < MAX_PARAM_LINES && k < |lines| ==> !GoodLine(lines[k])
    decreases MAX_PARAM_LINES - i
  {
    if i == MAX_PARAM_LINES || i == |lines| || !GoodLine(lines[i]) then i else AcceptedFrom(lines, i + 1)
  }

  /** The number of lines run accepts. */
  function Accepted(lines: seq<ParamLine>): nat
  {
    AcceptedFrom(lines, 0)
  }

  /** Band b is on one of the first k lines. */
  predicate ListedIn(lines: seq<ParamLine>, k: int, b: int)
  {
    exists i :: 0 <= i < k && i < |lines| && lines[i].band == Some(b)
  }

  /** Band b is on an accepted line. */
  predicate Listed(lines: seq<ParamLine>, b: int)
  {
    ListedIn(lines, Accepted(lines), b)
  }

  /**
   * The parameters of the first k lines, all good: each band listed has
   * the parameters of the last line that lists it.
   */
  function ParamsIn(lines: seq<ParamLine>, k: nat): (m: map<int, BandParams>)
    requires k <= |lines| && forall i :: 0 <= i < k ==> GoodLine(lines[i])
    ensures forall b :: b in m <==> ListedIn(lines, k, b)
  {
    if k == 0 then map[]
    else
      var l := lines[k - 1];
      assert GoodLine(l);
      ParamsIn(lines, k - 1)[l.band.value := l.params.value]
  }

  /** A band listed on line i and on none of the later lines of the first k has the parameters of line i. */
  lemma {:induction false} ParamsOfLastLine(lines: seq<ParamLine>, k: nat, i: int)
    requires k <= |lines| && forall j :: 0 <= j < k ==> GoodLine(lines[j])
    requires 0 <= i < k && forall j :: i < j < k ==> lines[j].band != lines[i].band
    ensures lines[i].band.Some? && lines[i].band.value in ParamsIn(lines, k)
    ensures Some(ParamsIn(lines, k)[lines[i].band.value]) == lines[i].params
  {
    assert GoodLine(lines[k - 1]);
    if i < k - 1 {
      ParamsOfLastLine(lines, k - 1, i);
    }
  }

  /**
   * The isband entry for b after the read loop, when the first `cleared`
   * entries were set to 0 before it and the rest held whatever uninit
   * holds: 1 for a band on an accepted line, otherwise 0 or the old
   * content.
   */
  function TableEntry(lines: seq<ParamLine>, uninit: seq<int>, cleared: int, b: int): int
    requires |uninit| == TABLE_SIZE && 0 <= b < TABLE_SIZE
  {
    if Listed(lines, b) then 1 else if b < cleared then 0 else uninit[b]
  }

  /**
   * The parameter part of run: clears the first `cleared` entries of
   * isband (uninit is what the array held before), then reads lines until
   * the first bad one or 16 of them, marking each band read as present
   * and keeping its parameters.
   */
  method ReadParameterTable(lines: seq<ParamLine>, uninit: seq<int>, cleared: int)
    returns (isband: array<int>, params: map<int, BandParams>)
    requires |uninit| == TABLE_SIZE && 0 <= cleared <= TABLE_SIZE
    ensures fresh(isband) && isband.Length == TABLE_SIZE
    ensures forall b :: 0 <= b < TABLE_SIZE ==> isband[b] == TableEntry(lines, uninit, cleared, b)
    ensures params == ParamsIn(lines, Accepted(lines))
  {
    isband := new int[TABLE_SIZE](b requires 0 <= b < TABLE_SIZE => uninit[b]);
    for i := 0 to cleared
      invariant forall b :: 0 <= b < TABLE_SIZE ==> isband[b] == if b < i then 0 else uninit[b]
    {
      isband[i] := 0;
    }
    params := map[];
    var k := 0;
    while k < MAX_PARAM_LINES
      invariant 0 <= k <= Accepted(lines) && AcceptedFrom(lines, k) == Accepted(lines)
      invariant forall b :: 0 <= b < TABLE_SIZE ==>
        isband[b] == if ListedIn(lines, k, b) then 1 else if b < cleared then 0 else uninit[b]
      invariant params == ParamsIn(lines, k)
    {
      if k >= |lines| || !GoodLine(lines[k]) {
        break;
      }
      var band := lines[k].band.value;
      isband[band] := 1;
      params := params[band := lines[k].params.value];
      k := k + 1;
    }
  }

  /**
   * How run ends before it reads the band data: with status -7 for a
   * band outside 1..16, with status 0 for a band without parameters, or
   * by going on to resample the band with its parameters.
   */
  datatype RunStart = Status(code: int) | Resample(band: int, params: BandParams)

  /**
   * The checks at the start of run: reads the parameter table with the
   * first `cleared` entries of isband cleared, takes the band number from
   * the band file name and returns -7 or 0, or the band and its
   * parameters. The band goes on to be resampled exactly when its isband
   * entry is 1. A band marked present without being listed gets `stale`,
   * the parameter values left in run's arrays from before.
   */
  method RunChecks(h5file: string, lines: seq<ParamLine>, uninit: seq<int>, stale: BandParams, cleared: int)
    returns (r: RunStart)
    requires |uninit| == TABLE_SIZE && 0 <= cleared <= TABLE_SIZE
    ensures r == Status(-7) <==> BandName(h5file) < 1 || BandName(h5file) > 16
    ensures r == Status(0) <==>
      1 <= BandName(h5file) <= 16 && TableEntry(lines, uninit, cleared, BandName(h5file)) != 1
    ensures r.Resample? <==>
      1 <= BandName(h5file) <= 16 && TableEntry(lines, uninit, cleared, BandName(h5file)) == 1
    ensures r.Resample? ==> r.band == BandName(h5file)
    ensures r.Resample? && Listed(lines, r.band) ==> r.params == ParamsIn(lines, Accepted(lines))[r.band]
    ensures r.Resample? && !Listed(lines, r.band) ==> r.params == stale
    ensures cleared == CLEARED ==>
      (r.Resample? <==> 1 <= BandName(h5file) <= 16 && Listed(lines, BandName(h5file)))
    ensures cleared == CLEARED_AS_WRITTEN && BandName(h5file) == 16 && !Listed(lines, 16) && uninit[16] == 1 ==>
      r == Resample(16, stale)
  {
    var isband, params := ReadParameterTable(lines, uninit, cleared);
    var band := GetBandName(h5file);
    if band < 1 || band > 16 {
      return Status(-7);
    }
    if isband[band] != 1 {
      return Status(0);
    }
    if band in params {
      r := Resample(band, params[band]);
    } else {
      r := Resample(band, stale);
    }
  }

  /**
   * As written, run clears isband[0..16) only. With no line for band 16
   * and a 1 left in isband[16], the table says band 16 has parameters:
   * run goes on with parameter entries that were never read.
   */
  lemma BandSixteenUncleared(uninit: seq<int>)
    requires |uninit| == TABLE_SIZE && uninit[16] == 1
    ensures !Listed([], 16)
    ensures TableEntry([], uninit, CLEARED_AS_WRITTEN, 16) == 1
    ensures TableEntry([], uninit, CLEARED, 16) == 0
  {
    assert Accepted([]) == 0;
  }

  /** With the first 17 entries cleared, every band 1..16 is marked present exactly when it is on an accepted line. */
  lemma ClearedTableExact(lines: seq<ParamLine>, uninit: seq<int>, b: int)
    requires |uninit| == TABLE_SIZE && 1 <= b <= 16
    ensures TableEntry(lines, uninit, CLEARED, b) == 1 <==> Listed(lines, b)
    ensures TableEntry(lines, uninit, CLEARED, b) == 0 <==> !Listed(lines, b)
  {
  }

  /** The physical values run computes from the stored samples: scale * val + offset, with no test for fill values. */
  function Scaled(buffer: seq<Driver.UShort>, scale: real, offset: real): (img: seq<real>)
    ensures |img| == |buffer|
  {
    seq(|buffer|, ix requires 0 <= ix < |buffer| => scale * buffer[ix] as real + offset)
  }

  /** The values run writes back: every resampled value quantised and clamped into [0, 65535]. */
  function Quantised(img: seq<real>, scale: real, offset: real): (q: seq<Driver.UShort>)
    requires scale != 0.0
    ensures |q| == |img|
  {
    seq(|img|, ix requires 0 <= ix < |img| => Driver.Quantise(img[ix], scale, offset))
  }

  /** Quantising the scaled samples gives the samples back: what the resampler leaves alone is written back unchanged. */
  lemma QuantiseAfterScale(buffer: seq<Driver.UShort>, scale: real, offset: real)
    requires scale != 0.0
    ensures Quantised(Scaled(buffer, scale, offset), scale, offset) == buffer
  {
    var img := Scaled(buffer, scale, offset);
    var q := Quantised(img, scale, offset);
    forall ix | 0 <= ix < |buffer| ensures q[ix] == buffer[ix] {
      var b := buffer[ix];
      assert img[ix] == scale * b as real + offset;
      assert q[ix] == Driver.Quantise(img[ix], scale, offset);
      Driver.QuantiseScaled(b, scale, offset);
    }
  }

  /** The scaling loop of run for bands other than M13. */
  method ScaleBand(buffer: seq<Driver.UShort>, scale: real, offset: real) returns (img: array<real>)
    ensures img.Length == |buffer| && img[..] == Scaled(buffer, scale, offset)
  {
    img := new real[|buffer|](ix => 0.0);
    for ix := 0 to |buffer|
      invariant forall k :: 0 <= k < ix ==> img[k] == scale * buffer[k] as real + offset
    {
      img[ix] := scale * buffer[ix] as real + offset;
    }
    assert forall k :: 0 <= k < |buffer| ==> Scaled(buffer, scale, offset)[k] == scale * buffer[k] as real + offset;
  }

  /** The quantisation loop of run for bands other than M13, into buffer. */
  method QuantiseBand(img: seq<real>, scale: real, offset: real, buffer: array<Driver.UShort>)
    requires |img| == buffer.Length && scale != 0.0
    modifies buffer
    ensures buffer[..] == Quantised(img, scale, offset)
  {
    for ix := 0 to buffer.Length
      invariant forall k :: 0 <= k < ix ==> buffer[k] == Driver.Quantise(img[k], scale, offset)
    {
      var j := Driver.Round((img[ix] - offset) / scale);
      if j < 0 {
        j := 0;
      }
      if j > 65535 {
        j := 65535;
      }
      buffer[ix] := j;
    }
  }
}
