/**
 * `wrf2gfs_params(namefile, varname, **kwargs)`: read one WRF output file
 * and repackage one variable, converted, with GFS-style names, dimensions
 * and a single time value.
 *
 * `Convert` is the specification: every branch of the source as a value,
 * with the four ways a call can end kept apart (a populated dataset, the
 * empty `xr.Dataset()`, the UnboundLocalError raised by `return ds` when no
 * branch bound `ds`, and every other exception). `Wrf2GfsParams` is the
 * step-by-step version, proved to agree with it.
 */
module Wrfpyx {
  import opened Wrappers
  import opened Grids
  import opened WrfData
  import opened TimeResolver

  /** The recognised values of `varname.upper()`. */
  datatype Key = U10 | V10 | T2 | RH | PS | CLDFRA | PR | LW | SW

  function KeyName(k: Key): string {
    match k
    case U10 => "U10"
    case V10 => "V10"
    case T2 => "T2"
    case RH => "RH"
    case PS => "PS"
    case CLDFRA => "CLDFRA"
    case PR => "PR"
    case LW => "LW"
    case SW => "SW"
  }

  function UpperChar(c: char): char {
    if 'a' <= c <= 'z' then (c as int - 32) as char else c
  }

  /** `str.upper()` on ASCII letters. */
  function Upper(s: string): (u: string)
    ensures |u| == |s| && forall i :: 0 <= i < |s| ==> u[i] == UpperChar(s[i])
  {
    seq(|s|, i requires 0 <= i < |s| => UpperChar(s[i]))
  }

  /** The branch of the `if var == ...` chain that `varname` selects. */
  function ParseKey(varname: string): Option<Key> {
    var v := Upper(varname);
    if v == KeyName(U10) then Some(U10)
    else if v == KeyName(V10) then Some(V10)
    else if v == KeyName(T2) then Some(T2)
    else if v == KeyName(RH) then Some(RH)
    else if v == KeyName(PS) then Some(PS)
    else if v == KeyName(CLDFRA) then Some(CLDFRA)
    else if v == KeyName(PR) then Some(PR)
    else if v == KeyName(LW) then Some(LW)
    else if v == KeyName(SW) then Some(SW)
    else None
  }

  /** A name selects key `k` exactly when it upper-cases to the key's name. */
  lemma ParseKeyRecognises(varname: string, k: Key)
    ensures ParseKey(varname) == Some(k) <==> Upper(varname) == KeyName(k)
  {
    match k
    case U10 => {}
    case V10 => {}
    case T2 => {}
    case RH => {}
    case PS => {}
    case CLDFRA => {}
    case PR => {}
    case LW => {}
    case SW => {}
  }

  /** The name of the data variable of the output. */
  function OutputName(k: Key): string {
    match k
    case U10 => "Uwind"
    case V10 => "Vwind"
    case T2 => "Tair"
    case RH => "Qair"
    case PS => "Pair"
    case CLDFRA => "cloud"
    case PR => "rain"
    case LW => "lwrad_down"
    case SW => "swrad"
  }

  /** Only the wind components sit on the 10 m height level. */
  predicate HasHeight(k: Key) {
    k == U10 || k == V10
  }

  function Dimensions(k: Key): seq<string> {
    if HasHeight(k) then ["time", "height_above_ground2", "lat", "lon"] else ["time", "lat", "lon"]
  }

  /** The units and GRIB abbreviation of the static attribute set of each output. */
  datatype VarAttrs = VarAttrs(units: string, abbreviation: string)

  function Attributes(k: Key): VarAttrs {
    match k
    case U10 => VarAttrs("meter_second-1", "UGRD")
    case V10 => VarAttrs("meter_second-1", "VGRD")
    case T2 => VarAttrs("Celsius", "TMP")
    case RH => VarAttrs("percentage", "RH")
    case PS => VarAttrs("millibar", "PRES")
    case CLDFRA => VarAttrs("nondimensional", "TCDC")
    case PR => VarAttrs("kilogram_meter-2_second-1", "PRATE")
    case LW => VarAttrs("watt_meter-2", "DLWRF")
    case SW => VarAttrs("watt_meter-2", "DSWRF")
  }

  /** The keys whose output is one source field converted cell by cell. */
  predicate IsCellwise(k: Key) {
    k in {U10, V10, T2, PS, LW, SW}
  }

  /** The WRF field a cellwise key reads. */
  function Source(k: Key): string
    requires IsCellwise(k)
  {
    match k
    case U10 => "U10"
    case V10 => "V10"
    case T2 => "T2"
    case PS => "PSFC"
    case LW => "GLW"
    case SW => "SWDOWN"
  }

  function KelvinToCelsius(x: real): real {
    x - 273.15
  }

  function PascalToHectopascal(x: real): real {
    x / 100.0
  }

  /** The keys whose output is their source field unchanged. */
  predicate IsCopy(k: Key) {
    k in {U10, V10, LW, SW}
  }

  /** `nc[name].data[:].squeeze()` with `convert` applied to every value. */
  function ConvertedField(f: WrfFile, name: string, convert: real -> real): Result<Matrix, Failure> {
    var g :- PlaneField(f, name);
    Success(MapCells(g, convert))
  }

  /** `relative_humidity_from_specific_humidity(p [hPa], t [degC], q)` in percent,
      a function of the humidity library left uninterpreted. */
  type Humidity = (real, real, real) -> real

  /** The keyword arguments the converter reads. */
  datatype Options = Options(yearSince: Option<int>, stepB: Option<string>)

  datatype OutputDataset = OutputDataset(
    variable: string,              // the one data variable
    dims: seq<string>,             // its dimensions
    data: Matrix,                  // its values on (lat, lon)
    attrs: VarAttrs,
    time: seq<int>,                // the time coordinate
    timeUnits: string,
    calendar: string,
    heightAboveGround: seq<int>,   // the height_above_ground2 coordinate, if any
    lat: seq<real>,
    lon: seq<real>)

  /** How a call ends. `Unbound` is the UnboundLocalError that `return ds`
      raises when no branch assigned `ds`. */
  datatype Outcome =
    | Populated(dataset: OutputDataset)
    | Empty
    | Unbound
    | Raised(failure: Failure)

  /** What every branch shares: the time values and the coordinate vectors. */
  datatype Frame = Frame(time: TimeContext, lat: Array, lon: Array)

  /** `nc[name]`. */
  function RequireVariable(f: WrfFile, name: string): Result<Array, Failure> {
    match Lookup(f, name)
    case None => Failure(KeyMissing(name))
    case Some(a) => Success(a)
  }

  /** An array read where cellwise arithmetic on a two-dimensional field
      follows. The grid is kept unsqueezed: cellwise arithmetic on equal shapes
      commutes with `.squeeze()`, and `Assemble` raises where squeezing it
      would have lowered its rank. */
  function AsGrid(a: Array): Result<Matrix, Failure> {
    if a.Plane? then Success(a.grid) else Failure(BadArray)
  }

  /** `nc[name].data[:].squeeze()` used where a two-dimensional field is needed. */
  function PlaneField(f: WrfFile, name: string): Result<Matrix, Failure> {
    var a :- RequireVariable(f, name);
    AsGrid(a)
  }

  /** wrfpyx.py:123-158: time resolution, then XLONG and XLAT read and collapsed. */
  function Prelude(f: WrfFile, yearSince: Option<int>): Result<Frame, Failure> {
    var time :- ResolveTime(f, yearSince);
    var lon :- RequireVariable(f, "XLONG");
    var lat :- RequireVariable(f, "XLAT");
    var lon1 :- CollapseLon(Squeeze(lon));
    var lat1 :- CollapseLat(Squeeze(lat));
    Success(Frame(time, lat1, lon1))
  }

  /** `xr.Dataset` accepts the data: `.squeeze()` left it two-dimensional and
      it matches the coordinate vectors. */
  predicate Fits(fr: Frame, data: Matrix) {
    KeepsRank(data) && MatchesCoordinates(fr, data)
  }

  predicate MatchesCoordinates(fr: Frame, data: Matrix) {
    fr.lat.Vector? && fr.lon.Vector? && |fr.lat.values| == |data.rows| && |fr.lon.values| == data.width
  }

  /** `xr.Dataset({name: (dims, data, attrs)}, coords={...})`. */
  function Assemble(k: Key, data: Matrix, fr: Frame): Outcome {
    // `data[np.newaxis,:,:]` on an array that squeeze left with fewer than two axes
    if !KeepsRank(data) then Raised(IndexOutOfRange)
    else if !Fits(fr, data) then Raised(BadArray)
    else Populated(OutputDataset(
      OutputName(k), Dimensions(k), data, Attributes(k),
      [fr.time.hoursSince], fr.time.units, fr.time.calendar,
      if HasHeight(k) then [10] else [],
      fr.lat.values, fr.lon.values))
  }

  function Emit(k: Key, data: Result<Matrix, Failure>, fr: Frame): Outcome {
    match data
    case Failure(e) => Raised(e)
    case Success(m) => Assemble(k, m, fr)
  }

  /** The names RH needs. */
  const RhInputs: seq<string> := ["PSFC", "T2", "Q2"]

  /** The names of `wanted` that are not among `keys`, in the order of `wanted`. */
  function Absent(wanted: seq<string>, keys: seq<string>): (r: seq<string>)
    ensures forall n :: n in r <==> n in wanted && n !in keys
    ensures |r| <= |wanted|
  {
    if |wanted| == 0 then []
    else
      var last := wanted[|wanted| - 1];
      Absent(wanted[..|wanted| - 1], keys) + (if ElementExists(keys, last) then [] else [last])
  }

  /** wrfpyx.py:383-389: count the RH inputs present and list the absent ones. */
  method CheckRhInputs(varKeys: seq<string>) returns (counter: nat, notKey: seq<string>)
    ensures notKey == Absent(RhInputs, varKeys)
    ensures counter + |notKey| == |RhInputs|
  {
    counter := 0;
    notKey := [];
    for i := 0 to |RhInputs|
      invariant notKey == Absent(RhInputs[..i], varKeys)
      invariant counter + |notKey| == i
    {
      var n := RhInputs[i];
      assert RhInputs[..i + 1][..i] == RhInputs[..i];
      if ElementExists(varKeys, n) {
        counter := counter + 1;
      } else {
        notKey := notKey + [n];
      }
    }
    assert RhInputs[..|RhInputs|] == RhInputs;
  }

  /** wrfpyx.py:394-399: PSFC in hPa, T2 in degrees Celsius and Q2 through the humidity function. */
  function RelativeHumidity(f: WrfFile, humidity: Humidity): Result<Matrix, Failure> {
    var p :- PlaneField(f, "PSFC");
    var t :- PlaneField(f, "T2");
    var q :- PlaneField(f, "Q2");
    HumidityField(p, t, q, humidity)
  }

  /** `sh2rh(p / 100, t - 273.15, q)` on three grids that numpy can combine. */
  function HumidityField(p: Matrix, t: Matrix, q: Matrix, humidity: Humidity): (r: Result<Matrix, Failure>)
    ensures r.Success? <==> SameShape(p, t) && SameShape(p, q)
    ensures r.Success? ==> SameShape(r.value, p) && forall i, j :: InGrid(p, i, j) ==>
      r.value.rows[i][j] == humidity(p.rows[i][j] / 100.0, t.rows[i][j] - 273.15, q.rows[i][j])
  {
    if SameShape(p, t) && SameShape(p, q) then
      Success(ZipCells3(MapCells(p, PascalToHectopascal), MapCells(t, KelvinToCelsius), q, humidity))
    else Failure(BadArray)
  }

  /** `RAINNC + RAINC` of one file: all precipitation accumulated since the start. */
  function RainTotal(f: WrfFile): Result<Matrix, Failure> {
    var rainnc :- RequireVariable(f, "RAINNC");
    var rainc :- RequireVariable(f, "RAINC");
    var a :- AsGrid(rainnc);
    var b :- AsGrid(rainc);
    Sum(a, b)
  }

  /** `rainnc + rainc`. */
  function Sum(a: Matrix, b: Matrix): (r: Result<Matrix, Failure>)
    ensures r.Success? <==> SameShape(a, b)
    ensures r.Success? ==> SameShape(r.value, a) && forall i, j :: InGrid(a, i, j) ==>
      r.value.rows[i][j] == a.rows[i][j] + b.rows[i][j]
  {
    if SameShape(a, b) then Success(ZipCells(a, b, Add)) else Failure(BadArray)
  }

  /** `ncvar_now - ncvar_before`. */
  function Difference(now: Matrix, before: Matrix): (r: Result<Matrix, Failure>)
    ensures r.Success? <==> SameShape(now, before)
    ensures r.Success? ==> SameShape(r.value, now) && forall i, j :: InGrid(now, i, j) ==>
      r.value.rows[i][j] == now.rows[i][j] - before.rows[i][j]
  {
    if SameShape(now, before) then Success(ZipCells(now, before, Sub)) else Failure(BadArray)
  }

  /** wrfpyx.py:472-510: the precipitation of the interval ending at this file. */
  function Precipitation(f: WrfFile, fr: Frame, stepB: Option<string>, prior: WrfFile): Outcome {
    match stepB
    case None => Empty
    case Some(path) =>
      if path == "" then Unbound
      else if fr.time.lead == 0.0 then Emit(PR, RainTotal(f), fr)
      else Emit(PR, (var now :- RainTotal(f); var before :- RainTotal(prior); Difference(now, before)), fr)
  }

  /** The body of the branch for key `k`. */
  function Transform(f: WrfFile, k: Key, fr: Frame, stepB: Option<string>, prior: WrfFile, humidity: Humidity): Outcome {
    match k
    case RH =>
      if |Absent(RhInputs, VariableKeys(f))| == 0 then Emit(RH, RelativeHumidity(f, humidity), fr)
      else Unbound
    case CLDFRA =>
      (match Lookup(f, "CLDFRA")
       case None => Raised(AttributeMissing("CLDFRA"))
       case Some(a) => if a.Column? then Assemble(CLDFRA, MaxOverLevels(a.levels), fr) else Raised(BadArray))
    case PR => Precipitation(f, fr, stepB, prior)
    case T2 => Emit(T2, ConvertedField(f, "T2", KelvinToCelsius), fr)
    case PS => Emit(PS, ConvertedField(f, "PSFC", PascalToHectopascal), fr)
    case _ => Emit(k, PlaneField(f, Source(k)), fr)
  }

  /** The branch a recognised key selects, once the prelude has succeeded;
      no branch leaves `ds` unbound. */
  function Selected(f: WrfFile, key: Option<Key>, fr: Frame, stepB: Option<string>, prior: WrfFile, humidity: Humidity): Outcome {
    match key
    case None => Unbound
    case Some(k) => Transform(f, k, fr, stepB, prior, humidity)
  }

  /** The whole call. `prior` is the file `step_b` names; it is read only on
      the precipitation path with a non-zero lead. */
  function Convert(f: WrfFile, varname: string, opts: Options, prior: WrfFile, humidity: Humidity): Outcome {
    match Prelude(f, opts.yearSince)
    case Failure(e) => Raised(e)
    case Success(fr) => Selected(f, ParseKey(varname), fr, opts.stepB, prior, humidity)
  }

  /** wrfpyx.py:377-417 statement by statement: the counting loop, then the
      dataset only when all three inputs were found. */
  method RhBranch(nc: WrfFile, fr: Frame, humidity: Humidity) returns (ds: Outcome)
    ensures ds == Transform(nc, RH, fr, None, nc, humidity)
  {
    ds := Unbound;
    var counter, notKey := CheckRhInputs(VariableKeys(nc));
    if counter == 3 {
      ds := Emit(RH, RelativeHumidity(nc, humidity), fr);
    }
  }

  /** wrfpyx.py:470-510 statement by statement, with `nc` rebound to the file
      `step_b` names when the lead is not zero. */
  method PrBranch(namefile: WrfFile, fr: Frame, stepB: Option<string>, prior: WrfFile) returns (ds: Outcome)
    ensures ds == Precipitation(namefile, fr, stepB, prior)
  {
    var nc := namefile;
    ds := Unbound;
    if stepB.Some? && stepB.value != "" {
      var now := RainTotal(nc);
      if now.Failure? {
        return Raised(now.error);
      }
      var ncvar := now.value;
      if fr.time.lead != 0.0 {
        nc := prior;
        var before := RainTotal(nc);
        if before.Failure? {
          return Raised(before.error);
        }
        var diff := Difference(now.value, before.value);
        if diff.Failure? {
          return Raised(diff.error);
        }
        ncvar := diff.value;
      }
      ds := Assemble(PR, ncvar, fr);
    } else if stepB.None? {
      ds := Empty;
    }
  }

  /** Once the prelude has succeeded, the call is the branch its key selects. */
  lemma ConvertSelects(f: WrfFile, varname: string, opts: Options, prior: WrfFile, humidity: Humidity, fr: Frame, k: Key)
    requires Prelude(f, opts.yearSince) == Success(fr)
    requires Upper(varname) == KeyName(k)
    ensures Convert(f, varname, opts, prior, humidity) == Transform(f, k, fr, opts.stepB, prior, humidity)
  {
    ParseKeyRecognises(varname, k);
  }

  /** wrfpyx.py:312-574: the `if var == ...` chain on `varname.upper()`, with `ds`
      left unbound where no branch assigns it. */
  method Dispatch(nc: WrfFile, varname: string, fr: Frame, stepB: Option<string>, prior: WrfFile, humidity: Humidity)
    returns (ds: Outcome)
    ensures ds == Selected(nc, ParseKey(varname), fr, stepB, prior, humidity)
  {
    ds := Unbound;
    var v := Upper(varname);
    if v == KeyName(U10) {
      ParseKeyRecognises(varname, U10);
      ds := Emit(U10, PlaneField(nc, "U10"), fr);
    } else if v == KeyName(V10) {
      ParseKeyRecognises(varname, V10);
      ds := Emit(V10, PlaneField(nc, "V10"), fr);
    } else if v == KeyName(T2) {
      ParseKeyRecognises(varname, T2);
      ds := Emit(T2, ConvertedField(nc, "T2", KelvinToCelsius), fr);
    } else if v == KeyName(RH) {
      ParseKeyRecognises(varname, RH);
      ds := RhBranch(nc, fr, humidity);
    } else if v == KeyName(PS) {
      ParseKeyRecognises(varname, PS);
      ds := Emit(PS, ConvertedField(nc, "PSFC", PascalToHectopascal), fr);
    } else if v == KeyName(CLDFRA) {
      ParseKeyRecognises(varname, CLDFRA);
      var cldfra := Lookup(nc, "CLDFRA");
      if cldfra.None? {
        return Raised(AttributeMissing("CLDFRA"));
      }
      if !cldfra.value.Column? {
        return Raised(BadArray);
      }
      ds := Assemble(CLDFRA, MaxOverLevels(cldfra.value.levels), fr);
    } else if v == KeyName(PR) {
      ParseKeyRecognises(varname, PR);
      ds := PrBranch(nc, fr, stepB, prior);
    } else if v == KeyName(LW) {
      ParseKeyRecognises(varname, LW);
      ds := Emit(LW, PlaneField(nc, "GLW"), fr);
    } else if v == KeyName(SW) {
      ParseKeyRecognises(varname, SW);
      ds := Emit(SW, PlaneField(nc, "SWDOWN"), fr);
    } else {
      // The final `elif var == []` compares a string with a list and never
      // holds, so an unrecognised name leaves `ds` unbound.
      assert ParseKey(varname) == None;
    }
  }

  /** The converter statement by statement: the prelude, then the branch chain. */
  method Wrf2GfsParams(namefile: WrfFile, varname: string, opts: Options, prior: WrfFile, humidity: Humidity)
    returns (ds: Outcome)
    ensures ds == Convert(namefile, varname, opts, prior, humidity)
  {
    var nc := namefile;
    var frame := Prelude(nc, opts.yearSince);
    if frame.Failure? {
      return Raised(frame.error);
    }
    ds := Dispatch(nc, varname, frame.value, opts.stepB, prior, humidity);
  }
}
