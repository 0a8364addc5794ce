/**
 * What the converter promises about its result. Each branch is first
 * described on its own (`Transform` for one key and one frame), then the
 * whole call `Convert` is tied to it: which name selects which branch, the
 * shape every populated dataset shares, the arithmetic of each variable and
 * the conditions under which a call ends empty, unbound or with an exception.
 */
module WrfpyxProperties {
  import opened Wrappers
  import opened Calendar
  import opened Grids
  import opened WrfData
  import opened TimeResolver
  import opened Wrfpyx

  /** `f` holds a two-dimensional variable `name` with contents `g`. */
  predicate PlaneOf(f: WrfFile, name: string, g: Matrix) {
    Lookup(f, name) == Some(Plane(g))
  }

  // ---------------------------------------------------------------- names

  lemma UpperIdempotent(s: string)
    ensures Upper(Upper(s)) == Upper(s)
  {
    var u := Upper(s);
    assert forall i :: 0 <= i < |s| ==> UpperChar(u[i]) == u[i];
  }

  /** The name of every key upper-cases to itself. */
  lemma KeyNameIsUpper(k: Key)
    ensures Upper(KeyName(k)) == KeyName(k)
  {
    var n := KeyName(k);
    assert forall i :: 0 <= i < |n| ==> UpperChar(n[i]) == n[i];
  }

  /** Every key is selected by its own name, and no two keys share a name:
      the branches are disjoint. */
  lemma KeysSelectedByName(k: Key, j: Key)
    ensures ParseKey(KeyName(k)) == Some(k)
    ensures KeyName(j) == KeyName(k) <==> j == k
  {
    KeyNameIsUpper(k);
    ParseKeyRecognises(KeyName(k), k);
  }

  /** The lower-case names the documentation lists are recognised; `rain`,
      which the error message also lists, is not. */
  lemma DocumentedNames()
    ensures ParseKey("u10") == Some(U10) && ParseKey("v10") == Some(V10)
    ensures ParseKey("t2") == Some(T2) && ParseKey("rh") == Some(RH)
    ensures ParseKey("ps") == Some(PS) && ParseKey("cldfra") == Some(CLDFRA)
    ensures ParseKey("pr") == Some(PR) && ParseKey("sw") == Some(SW) && ParseKey("lw") == Some(LW)
    ensures ParseKey("rain") == None
  {
    assert Upper("u10") == "U10";
    assert Upper("v10") == "V10";
    assert Upper("t2") == "T2";
    assert Upper("rh") == "RH";
    assert Upper("ps") == "PS";
    assert Upper("cldfra") == "CLDFRA";
    assert Upper("pr") == "PR";
    assert Upper("sw") == "SW";
    assert Upper("lw") == "LW";
    assert Upper("rain") == "RAIN";
  }

  /** No branch is taken exactly when the upper-cased name is no key's name. */
  lemma ParseKeyNone(varname: string)
    ensures ParseKey(varname).None? <==> forall k :: Upper(varname) != KeyName(k)
  {
    if ParseKey(varname).Some? {
      ParseKeyRecognises(varname, ParseKey(varname).value);
    }
  }

  /** A name and its upper-cased form select the same branch. */
  lemma ParseKeyIgnoresCase(varname: string)
    ensures ParseKey(Upper(varname)) == ParseKey(varname)
  {
    UpperIdempotent(varname);
  }

  /** The call ignores the case of `varname`. */
  lemma CaseInsensitive(f: WrfFile, varname: string, opts: Options, prior: WrfFile, humidity: Humidity)
    ensures Convert(f, varname, opts, prior, humidity) == Convert(f, Upper(varname), opts, prior, humidity)
  {
    ParseKeyIgnoresCase(varname);
  }

  // ---------------------------------------------------------------- prelude

  /** A successful prelude resolved the time and read both coordinate
      arrays, squeezing them and collapsing what is still two-dimensional to
      its first row and first column. */
  lemma PreludeMeaning(f: WrfFile, yearSince: Option<int>)
    requires Prelude(f, yearSince).Success?
    ensures var fr := Prelude(f, yearSince).value;
      && ResolveTime(f, yearSince) == Success(fr.time)
      && Lookup(f, "XLONG").Some? && CollapseLon(Squeeze(Lookup(f, "XLONG").value)) == Success(fr.lon)
      && Lookup(f, "XLAT").Some? && CollapseLat(Squeeze(Lookup(f, "XLAT").value)) == Success(fr.lat)
  {
  }

  /** An exception in the prelude ends every call, whatever the variable,
      and the time is resolved before the coordinates are read. */
  lemma PreludeFailureRaises(f: WrfFile, varname: string, opts: Options, prior: WrfFile, humidity: Humidity)
    requires Prelude(f, opts.yearSince).Failure?
    ensures Convert(f, varname, opts, prior, humidity) == Raised(Prelude(f, opts.yearSince).error)
    ensures ResolveTime(f, opts.yearSince).Failure? ==>
      Convert(f, varname, opts, prior, humidity) == Raised(ResolveTime(f, opts.yearSince).error)
  {
  }

  /** Once the time is resolved, the prelude succeeds exactly when XLONG and
      XLAT are present and collapse, and the frame holds what they collapse to. */
  lemma PreludeSucceeds(f: WrfFile, yearSince: Option<int>, lon: Array, lat: Array)
    requires ResolveTime(f, yearSince).Success?
    requires Lookup(f, "XLONG") == Some(lon) && Lookup(f, "XLAT") == Some(lat)
    requires CollapseLon(Squeeze(lon)).Success? && CollapseLat(Squeeze(lat)).Success?
    ensures Prelude(f, yearSince)
      == Success(Frame(ResolveTime(f, yearSince).value, CollapseLat(Squeeze(lat)).value, CollapseLon(Squeeze(lon)).value))
  {
  }

  /** Once the time is resolved: `nc['XLONG']` and then `nc['XLAT']` raise a
      KeyError naming the missing one, and a coordinate grid that is still
      two-dimensional after squeezing but has no row or no column raises an
      IndexError. */
  lemma CoordinateFailures(f: WrfFile, yearSince: Option<int>)
    requires ResolveTime(f, yearSince).Success?
    ensures Lookup(f, "XLONG").None? ==> Prelude(f, yearSince) == Failure(KeyMissing("XLONG"))
    ensures Lookup(f, "XLONG").Some? && Lookup(f, "XLAT").None? ==> Prelude(f, yearSince) == Failure(KeyMissing("XLAT"))
    ensures Lookup(f, "XLONG").Some? && Lookup(f, "XLAT").Some?
      && (CollapseLon(Squeeze(Lookup(f, "XLONG").value)).Failure? || CollapseLat(Squeeze(Lookup(f, "XLAT").value)).Failure?)
      ==> Prelude(f, yearSince) == Failure(IndexOutOfRange)
  {
  }

  // ---------------------------------------------------------------- outcomes

  lemma EmitPopulated(k: Key, data: Result<Matrix, Failure>, fr: Frame)
    requires Emit(k, data, fr).Populated?
    ensures data.Success? && Fits(fr, data.value) && Emit(k, data, fr) == Assemble(k, data.value, fr)
  {
  }

  /** Every populated branch result is one `Assemble` of data that fits the frame. */
  lemma TransformPopulated(f: WrfFile, k: Key, fr: Frame, stepB: Option<string>, prior: WrfFile, humidity: Humidity)
    requires Transform(f, k, fr, stepB, prior, humidity).Populated?
    ensures exists m :: Fits(fr, m) && Transform(f, k, fr, stepB, prior, humidity) == Assemble(k, m, fr)
  {
    var r := Transform(f, k, fr, stepB, prior, humidity);
    match k
    case RH =>
      EmitPopulated(RH, RelativeHumidity(f, humidity), fr);
    case CLDFRA =>
      var m := MaxOverLevels(Lookup(f, "CLDFRA").value.levels);
      assert Fits(fr, m) && r == Assemble(CLDFRA, m, fr);
    case PR =>
      if fr.time.lead == 0.0 {
        EmitPopulated(PR, RainTotal(f), fr);
      } else {
        var d := (var now :- RainTotal(f); var before :- RainTotal(prior); Difference(now, before));
        EmitPopulated(PR, d, fr);
      }
    case T2 =>
      EmitPopulated(T2, ConvertedField(f, "T2", KelvinToCelsius), fr);
    case PS =>
      EmitPopulated(PS, ConvertedField(f, "PSFC", PascalToHectopascal), fr);
    case _ =>
      EmitPopulated(k, PlaneField(f, Source(k)), fr);
  }

  /** The shape of a populated branch result. */
  lemma TransformShape(f: WrfFile, k: Key, fr: Frame, stepB: Option<string>, prior: WrfFile, humidity: Humidity)
    requires Transform(f, k, fr, stepB, prior, humidity).Populated?
    ensures var ds := Transform(f, k, fr, stepB, prior, humidity).dataset;
      && ds.variable == OutputName(k) && ds.dims == Dimensions(k) && ds.attrs == Attributes(k)
      && ds.time == [fr.time.hoursSince] && ds.timeUnits == fr.time.units
      && ds.calendar == fr.time.calendar
      && ds.heightAboveGround == (if HasHeight(k) then [10] else [])
      && fr.lat == Vector(ds.lat) && fr.lon == Vector(ds.lon)
      && |ds.lat| == |ds.data.rows| && |ds.lon| == ds.data.width
  {
    TransformPopulated(f, k, fr, stepB, prior, humidity);
  }

  /** A populated call passed the prelude and recognised its variable, and
      is that variable's branch. */
  lemma ConvertPopulated(f: WrfFile, varname: string, opts: Options, prior: WrfFile, humidity: Humidity)
    requires Convert(f, varname, opts, prior, humidity).Populated?
    ensures Prelude(f, opts.yearSince).Success? && ParseKey(varname).Some?
    ensures Convert(f, varname, opts, prior, humidity)
      == Transform(f, ParseKey(varname).value, Prelude(f, opts.yearSince).value, opts.stepB, prior, humidity)
  {
  }

  /** What every populated dataset shares: the recognised variable's output
      name, dimensions and attributes, one time value (the hours since the
      epoch) with its units and the proleptic Gregorian calendar, the 10 m
      height level only for the wind components, and latitude and longitude
      vectors from the prelude whose lengths match the data. */
  lemma PopulatedOutput(f: WrfFile, varname: string, opts: Options, prior: WrfFile, humidity: Humidity)
    requires Convert(f, varname, opts, prior, humidity).Populated?
    ensures Prelude(f, opts.yearSince).Success? && ParseKey(varname).Some?
    ensures var fr := Prelude(f, opts.yearSince).value;
      var k := ParseKey(varname).value;
      var ds := Convert(f, varname, opts, prior, humidity).dataset;
      && ds.variable == OutputName(k) && ds.dims == Dimensions(k) && ds.attrs == Attributes(k)
      && ds.time == [fr.time.hoursSince] && ds.timeUnits == fr.time.units
      && ds.calendar == "proleptic_gregorian"
      && ds.heightAboveGround == (if HasHeight(k) then [10] else [])
      && fr.lat == Vector(ds.lat) && fr.lon == Vector(ds.lon)
      && |ds.lat| == |ds.data.rows| && |ds.lon| == ds.data.width
  {
    ConvertPopulated(f, varname, opts, prior, humidity);
    var fr := Prelude(f, opts.yearSince).value;
    TransformShape(f, ParseKey(varname).value, fr, opts.stepB, prior, humidity);
    PreludeMeaning(f, opts.yearSince);
    ResolveTimeMeaning(f, opts.yearSince);
  }

  /** The single time value counts the hours from the epoch to the valid
      time exactly, and the units name that epoch. */
  lemma PopulatedTime(f: WrfFile, varname: string, opts: Options, prior: WrfFile, humidity: Humidity)
    requires Convert(f, varname, opts, prior, humidity).Populated?
    ensures ResolveTime(f, opts.yearSince).Success?
    ensures var tc := ResolveTime(f, opts.yearSince).value;
      var ds := Convert(f, varname, opts, prior, humidity).dataset;
      && |ds.time| == 1
      && ds.time[0] * SecondsPerHour == Seconds(tc.valid) - Seconds(tc.epoch)
      && ds.timeUnits == TimeUnits(tc.epoch)
      && IsMidnight(tc.epoch)
  {
    PopulatedOutput(f, varname, opts, prior, humidity);
    PreludeMeaning(f, opts.yearSince);
    ResolveTimeMeaning(f, opts.yearSince);
  }

  /** Only the precipitation branch without `step_b` gives the empty dataset. */
  lemma TransformEmpty(f: WrfFile, k: Key, fr: Frame, stepB: Option<string>, prior: WrfFile, humidity: Humidity)
    requires Transform(f, k, fr, stepB, prior, humidity) == Empty
    ensures k == PR && stepB.None?
  {
  }

  /** The empty dataset comes only from the precipitation branch without
      `step_b`: the final `elif var == []` can never hold. */
  lemma EmptyOnlyWithoutStep(f: WrfFile, varname: string, opts: Options, prior: WrfFile, humidity: Humidity)
    requires Convert(f, varname, opts, prior, humidity) == Empty
    ensures ParseKey(varname) == Some(PR) && opts.stepB.None?
  {
    var fr := Prelude(f, opts.yearSince).value;
    TransformEmpty(f, ParseKey(varname).value, fr, opts.stepB, prior, humidity);
  }

  /** A name that selects no branch leaves `ds` unbound. */
  lemma UnrecognisedNameUnbound(f: WrfFile, varname: string, opts: Options, prior: WrfFile, humidity: Humidity)
    requires Prelude(f, opts.yearSince).Success?
    requires forall k :: Upper(varname) != KeyName(k)
    ensures Convert(f, varname, opts, prior, humidity) == Unbound
  {
    ParseKeyNone(varname);
  }

  // ---------------------------------------------------------------- variables

  /** The branch of a key that reads one source field: a missing field
      raises a KeyError naming it, and one that is not two-dimensional
      cannot be placed on (lat, lon). */
  lemma SourceBranch(f: WrfFile, k: Key, fr: Frame, stepB: Option<string>, prior: WrfFile, humidity: Humidity)
    requires IsCellwise(k)
    ensures var r := Transform(f, k, fr, stepB, prior, humidity);
      && (Lookup(f, Source(k)).None? ==> r == Raised(KeyMissing(Source(k))))
      && (Lookup(f, Source(k)).Some? && !Lookup(f, Source(k)).value.Plane? ==> r == Raised(BadArray))
  {
  }

  /** A source field with one row or one column loses an axis to
      `.squeeze()`, and `ncvar[np.newaxis,:,:]` then raises an IndexError,
      whatever the coordinates. */
  lemma NarrowFieldRaises(f: WrfFile, k: Key, fr: Frame, stepB: Option<string>, prior: WrfFile, humidity: Humidity, g: Matrix)
    requires IsCellwise(k) && PlaneOf(f, Source(k), g) && !KeepsRank(g)
    ensures Transform(f, k, fr, stepB, prior, humidity) == Raised(IndexOutOfRange)
  {
    if k == T2 {
      assert SameShape(MapCells(g, KelvinToCelsius), g);
    } else if k == PS {
      assert SameShape(MapCells(g, PascalToHectopascal), g);
    }
  }

  /** U10, V10, T2, PS, LW and SW raise a KeyError naming their source field
      when the file lacks it. */
  lemma MissingSourceRaises(f: WrfFile, varname: string, opts: Options, prior: WrfFile, humidity: Humidity, k: Key)
    requires Prelude(f, opts.yearSince).Success?
    requires Upper(varname) == KeyName(k) && IsCellwise(k)
    ensures var r := Convert(f, varname, opts, prior, humidity);
      && (Lookup(f, Source(k)).None? ==> r == Raised(KeyMissing(Source(k))))
      && (Lookup(f, Source(k)).Some? && !Lookup(f, Source(k)).value.Plane? ==> r == Raised(BadArray))
  {
    var fr := Prelude(f, opts.yearSince).value;
    ConvertSelects(f, varname, opts, prior, humidity, fr, k);
    SourceBranch(f, k, fr, opts.stepB, prior, humidity);
  }

  /** The branch of a copying key. */
  lemma CopyBranch(f: WrfFile, k: Key, fr: Frame, stepB: Option<string>, prior: WrfFile, humidity: Humidity, g: Matrix)
    requires IsCopy(k) && PlaneOf(f, Source(k), g)
    ensures var r := Transform(f, k, fr, stepB, prior, humidity);
      && (r.Populated? <==> Fits(fr, g))
      && (r.Populated? ==> r.dataset.data == g)
  {
  }

  /** U10, V10, LW and SW copy their source field unchanged. */
  lemma CopiedField(f: WrfFile, varname: string, opts: Options, prior: WrfFile, humidity: Humidity, k: Key, g: Matrix)
    requires Prelude(f, opts.yearSince).Success?
    requires Upper(varname) == KeyName(k) && IsCopy(k) && PlaneOf(f, Source(k), g)
    ensures var r := Convert(f, varname, opts, prior, humidity);
      && (r.Populated? <==> Fits(Prelude(f, opts.yearSince).value, g))
      && (r.Populated? ==> r.dataset.data == g)
  {
    var fr := Prelude(f, opts.yearSince).value;
    ConvertSelects(f, varname, opts, prior, humidity, fr, k);
    CopyBranch(f, k, fr, opts.stepB, prior, humidity, g);
  }

  /** The branch of T2. */
  lemma TemperatureBranch(f: WrfFile, fr: Frame, stepB: Option<string>, prior: WrfFile, humidity: Humidity, g: Matrix)
    requires PlaneOf(f, "T2", g)
    ensures var r := Transform(f, T2, fr, stepB, prior, humidity);
      && (r.Populated? <==> Fits(fr, g))
      && (r.Populated? ==>
            && SameShape(r.dataset.data, g)
            && forall i, j :: InGrid(g, i, j) ==>
                 r.dataset.data.rows[i][j] == g.rows[i][j] - 273.15
                 && g.rows[i][j] == r.dataset.data.rows[i][j] + 273.15)
  {
  }

  /** T2 is the source temperature in degrees Celsius, and adding 273.15
      back gives the source value. */
  lemma TemperatureInCelsius(f: WrfFile, varname: string, opts: Options, prior: WrfFile, humidity: Humidity, g: Matrix)
    requires Prelude(f, opts.yearSince).Success?
    requires Upper(varname) == KeyName(T2) && PlaneOf(f, "T2", g)
    ensures var r := Convert(f, varname, opts, prior, humidity);
      && (r.Populated? <==> Fits(Prelude(f, opts.yearSince).value, g))
      && (r.Populated? ==>
            && SameShape(r.dataset.data, g)
            && forall i, j :: InGrid(g, i, j) ==>
                 r.dataset.data.rows[i][j] == g.rows[i][j] - 273.15
                 && g.rows[i][j] == r.dataset.data.rows[i][j] + 273.15)
  {
    var fr := Prelude(f, opts.yearSince).value;
    ConvertSelects(f, varname, opts, prior, humidity, fr, T2);
    TemperatureBranch(f, fr, opts.stepB, prior, humidity, g);
  }

  /** The branch of PS. */
  lemma PressureBranch(f: WrfFile, fr: Frame, stepB: Option<string>, prior: WrfFile, humidity: Humidity, g: Matrix)
    requires PlaneOf(f, "PSFC", g)
    ensures var r := Transform(f, PS, fr, stepB, prior, humidity);
      && (r.Populated? <==> Fits(fr, g))
      && (r.Populated? ==>
            && SameShape(r.dataset.data, g)
            && forall i, j :: InGrid(g, i, j) ==>
                 r.dataset.data.rows[i][j] == g.rows[i][j] / 100.0
                 && g.rows[i][j] == r.dataset.data.rows[i][j] * 100.0)
  {
  }

  /** PS is the source surface pressure PSFC in hectopascals, and
      multiplying by 100 gives the source value. */
  lemma PressureInHectopascals(f: WrfFile, varname: string, opts: Options, prior: WrfFile, humidity: Humidity, g: Matrix)
    requires Prelude(f, opts.yearSince).Success?
    requires Upper(varname) == KeyName(PS) && PlaneOf(f, "PSFC", g)
    ensures var r := Convert(f, varname, opts, prior, humidity);
      && (r.Populated? <==> Fits(Prelude(f, opts.yearSince).value, g))
      && (r.Populated? ==>
            && SameShape(r.dataset.data, g)
            && forall i, j :: InGrid(g, i, j) ==>
                 r.dataset.data.rows[i][j] == g.rows[i][j] / 100.0
                 && g.rows[i][j] == r.dataset.data.rows[i][j] * 100.0)
  {
    var fr := Prelude(f, opts.yearSince).value;
    ConvertSelects(f, varname, opts, prior, humidity, fr, PS);
    PressureBranch(f, fr, opts.stepB, prior, humidity, g);
  }

  /** The branch of CLDFRA. */
  lemma CloudBranch(f: WrfFile, fr: Frame, stepB: Option<string>, prior: WrfFile, humidity: Humidity)
    ensures var r := Transform(f, CLDFRA, fr, stepB, prior, humidity);
      && (Lookup(f, "CLDFRA").None? ==> r == Raised(AttributeMissing("CLDFRA")))
      && (Lookup(f, "CLDFRA").Some? && !Lookup(f, "CLDFRA").value.Column? ==> r == Raised(BadArray))
      && (Lookup(f, "CLDFRA").Some? && Lookup(f, "CLDFRA").value.Column? ==>
            (r.Populated? <==> Fits(fr, MaxOverLevels(Lookup(f, "CLDFRA").value.levels))))
      && (r.Populated? ==>
            && Lookup(f, "CLDFRA").Some? && Lookup(f, "CLDFRA").value.Column?
            && r.dataset.data == MaxOverLevels(Lookup(f, "CLDFRA").value.levels))
  {
  }

  /** CLDFRA is the total cloud cover: in every cell the largest cloud
      fraction of the column, populated exactly when that maximum fits. It is
      read as an attribute, so a missing field raises an AttributeError, and
      one without a `bottom_top` axis cannot be reduced over it. */
  lemma CloudCoverIsColumnMaximum(f: WrfFile, varname: string, opts: Options, prior: WrfFile, humidity: Humidity)
    requires Prelude(f, opts.yearSince).Success?
    requires Upper(varname) == KeyName(CLDFRA)
    ensures var r := Convert(f, varname, opts, prior, humidity);
      && (Lookup(f, "CLDFRA").None? ==> r == Raised(AttributeMissing("CLDFRA")))
      && (Lookup(f, "CLDFRA").Some? && !Lookup(f, "CLDFRA").value.Column? ==> r == Raised(BadArray))
      && (Lookup(f, "CLDFRA").Some? && Lookup(f, "CLDFRA").value.Column? ==>
            (r.Populated? <==> Fits(Prelude(f, opts.yearSince).value, MaxOverLevels(Lookup(f, "CLDFRA").value.levels))))
      && (r.Populated? ==>
            && Lookup(f, "CLDFRA").Some? && Lookup(f, "CLDFRA").value.Column?
            && var levels := Lookup(f, "CLDFRA").value.levels;
               var data := r.dataset.data;
               && SameShape(data, levels[0])
               && (forall k, i, j :: 0 <= k < |levels| && InGrid(data, i, j) ==> levels[k].rows[i][j] <= data.rows[i][j])
               && (forall i, j :: InGrid(data, i, j) ==> exists k :: 0 <= k < |levels| && data.rows[i][j] == levels[k].rows[i][j]))
  {
    var fr := Prelude(f, opts.yearSince).value;
    ConvertSelects(f, varname, opts, prior, humidity, fr, CLDFRA);
    CloudBranch(f, fr, opts.stepB, prior, humidity);
  }

  function Cell(x: real): Matrix {
    Grid(1, [[x]])
  }

  /** The cellwise maximum of two one-cell grids. */
  lemma CellMax(x: real, y: real)
    ensures ZipCells(Cell(x), Cell(y), Max) == Cell(Max(x, y))
  {
    var r := ZipCells(Cell(x), Cell(y), Max);
    assert r.rows[0] == [Max(x, y)];
    assert r.rows == [[Max(x, y)]];
  }

  /** A one-cell column with cloud fractions 0.1, 0.5 and 0.3 has total cover 0.5. */
  lemma CloudCoverExample()
    ensures MaxOverLevels([Cell(0.1), Cell(0.5), Cell(0.3)]) == Cell(0.5)
  {
    var levels := [Cell(0.1), Cell(0.5), Cell(0.3)];
    assert levels[1..] == [Cell(0.5), Cell(0.3)];
    assert levels[1..][1..] == [Cell(0.3)];
    CellMax(0.5, 0.3);
    CellMax(0.1, 0.5);
  }

  /** The absent RH inputs are listed in the order PSFC, T2, Q2. */
  lemma MissingRhInputsInOrder(keys: seq<string>)
    ensures Absent(RhInputs, keys) ==
      (if "PSFC" in keys then [] else ["PSFC"]) + (if "T2" in keys then [] else ["T2"])
      + (if "Q2" in keys then [] else ["Q2"])
  {
    var one := Absent(["PSFC"], keys);
    assert ["PSFC"][..0] == [];
    assert one == (if "PSFC" in keys then [] else ["PSFC"]);
    var two := Absent(["PSFC", "T2"], keys);
    assert ["PSFC", "T2"][..1] == ["PSFC"];
    assert two == one + (if "T2" in keys then [] else ["T2"]);
    assert RhInputs[..2] == ["PSFC", "T2"];
  }

  /** The branch of RH assigns nothing exactly when an input is missing. */
  lemma HumidityInputsBranch(f: WrfFile, fr: Frame, stepB: Option<string>, prior: WrfFile, humidity: Humidity)
    ensures var keys := VariableKeys(f);
      Transform(f, RH, fr, stepB, prior, humidity) == Unbound <==> !("PSFC" in keys && "T2" in keys && "Q2" in keys)
  {
    MissingRhInputsInOrder(VariableKeys(f));
  }

  /** The branch of RH with all three inputs present: populated exactly when
      they have one shape that fits the coordinates, each cell then being the
      humidity function of the pressure in hPa, the temperature in degrees
      Celsius and the specific humidity. */
  lemma HumidityCellsBranch(f: WrfFile, fr: Frame, stepB: Option<string>, prior: WrfFile, humidity: Humidity,
                            p: Matrix, t: Matrix, q: Matrix)
    requires PlaneOf(f, "PSFC", p) && PlaneOf(f, "T2", t) && PlaneOf(f, "Q2", q)
    ensures var r := Transform(f, RH, fr, stepB, prior, humidity);
      && (r.Populated? <==> SameShape(p, t) && SameShape(p, q) && Fits(fr, p))
      && (r.Populated? ==>
            && SameShape(r.dataset.data, p)
            && forall i, j :: InGrid(p, i, j) ==>
                 r.dataset.data.rows[i][j] == humidity(p.rows[i][j] / 100.0, t.rows[i][j] - 273.15, q.rows[i][j]))
  {
    LookupMeaning(f, "PSFC");
    LookupMeaning(f, "T2");
    LookupMeaning(f, "Q2");
    MissingRhInputsInOrder(VariableKeys(f));
    assert RelativeHumidity(f, humidity) == HumidityField(p, t, q, humidity);
  }

  /** RH leaves `ds` unbound exactly when one of PSFC, T2 and Q2 is missing. */
  lemma HumidityNeedsInputs(f: WrfFile, varname: string, opts: Options, prior: WrfFile, humidity: Humidity)
    requires Prelude(f, opts.yearSince).Success?
    requires Upper(varname) == KeyName(RH)
    ensures var keys := VariableKeys(f);
      Convert(f, varname, opts, prior, humidity) == Unbound <==> !("PSFC" in keys && "T2" in keys && "Q2" in keys)
  {
    var fr := Prelude(f, opts.yearSince).value;
    ConvertSelects(f, varname, opts, prior, humidity, fr, RH);
    HumidityInputsBranch(f, fr, opts.stepB, prior, humidity);
  }

  /** With PSFC, T2 and Q2 present, RH is populated exactly when they share
      one shape that fits the coordinates, and each cell is the humidity
      function of the pressure in hPa, the temperature in degrees Celsius
      and the specific humidity. */
  lemma HumidityFromInputs(f: WrfFile, varname: string, opts: Options, prior: WrfFile, humidity: Humidity,
                           p: Matrix, t: Matrix, q: Matrix)
    requires Prelude(f, opts.yearSince).Success?
    requires Upper(varname) == KeyName(RH)
    requires PlaneOf(f, "PSFC", p) && PlaneOf(f, "T2", t) && PlaneOf(f, "Q2", q)
    ensures var r := Convert(f, varname, opts, prior, humidity);
      && (r.Populated? <==> SameShape(p, t) && SameShape(p, q) && Fits(Prelude(f, opts.yearSince).value, p))
      && (r.Populated? ==>
            && SameShape(r.dataset.data, p)
            && forall i, j :: InGrid(p, i, j) ==>
                 r.dataset.data.rows[i][j] == humidity(p.rows[i][j] / 100.0, t.rows[i][j] - 273.15, q.rows[i][j]))
  {
    var fr := Prelude(f, opts.yearSince).value;
    ConvertSelects(f, varname, opts, prior, humidity, fr, RH);
    HumidityCellsBranch(f, fr, opts.stepB, prior, humidity, p, t, q);
  }

  /** With `step_b`, RAINNC and then RAINC are looked up before either is
      used, in this file and then in the previous one: a missing field raises
      a KeyError naming it whatever the other field holds. */
  lemma MissingRainRaises(f: WrfFile, fr: Frame, path: string, prior: WrfFile, humidity: Humidity)
    requires path != ""
    ensures var r := Transform(f, PR, fr, Some(path), prior, humidity);
      && (Lookup(f, "RAINNC").None? ==> r == Raised(KeyMissing("RAINNC")))
      && (Lookup(f, "RAINNC").Some? && Lookup(f, "RAINC").None? ==> r == Raised(KeyMissing("RAINC")))
      && (RainTotal(f).Success? && fr.time.lead != 0.0 && Lookup(prior, "RAINNC").None?
          ==> r == Raised(KeyMissing("RAINNC")))
      && (RainTotal(f).Success? && fr.time.lead != 0.0 && Lookup(prior, "RAINNC").Some? && Lookup(prior, "RAINC").None?
          ==> r == Raised(KeyMissing("RAINC")))
  {
  }

  /** The branch of PR without a usable `step_b`. */
  lemma PrecipitationStepBranch(f: WrfFile, fr: Frame, stepB: Option<string>, prior: WrfFile, humidity: Humidity)
    ensures stepB.None? ==> Transform(f, PR, fr, stepB, prior, humidity) == Empty
    ensures stepB == Some("") ==> Transform(f, PR, fr, stepB, prior, humidity) == Unbound
  {
  }

  /** Without `step_b` the precipitation branch returns the empty dataset;
      with an empty `step_b` it assigns nothing. */
  lemma PrecipitationNeedsStep(f: WrfFile, varname: string, opts: Options, prior: WrfFile, humidity: Humidity)
    requires Prelude(f, opts.yearSince).Success?
    requires Upper(varname) == KeyName(PR)
    ensures opts.stepB.None? ==> Convert(f, varname, opts, prior, humidity) == Empty
    ensures opts.stepB == Some("") ==> Convert(f, varname, opts, prior, humidity) == Unbound
  {
    var fr := Prelude(f, opts.yearSince).value;
    ConvertSelects(f, varname, opts, prior, humidity, fr, PR);
    PrecipitationStepBranch(f, fr, opts.stepB, prior, humidity);
  }

  /** The branch of PR at a whole number of days from the start does not
      depend on the previous file. */
  lemma WholeDaysIgnorePriorBranch(f: WrfFile, fr: Frame, stepB: Option<string>, prior1: WrfFile, prior2: WrfFile, humidity: Humidity)
    requires fr.time.lead == 0.0
    ensures Transform(f, PR, fr, stepB, prior1, humidity) == Transform(f, PR, fr, stepB, prior2, humidity)
  {
  }

  /** The branch of PR at a whole number of days from the start, with a
      non-empty `step_b`: the rain is RAINNC + RAINC. */
  lemma WholeDaysBranch(f: WrfFile, fr: Frame, stepB: Option<string>, prior: WrfFile, humidity: Humidity,
                        nc: Matrix, c: Matrix)
    requires fr.time.lead == 0.0 && stepB.Some? && stepB.value != ""
    requires PlaneOf(f, "RAINNC", nc) && PlaneOf(f, "RAINC", c)
    ensures var r := Transform(f, PR, fr, stepB, prior, humidity);
      && (r.Populated? <==> SameShape(nc, c) && Fits(fr, nc))
      && (r.Populated? ==>
            && SameShape(r.dataset.data, nc)
            && forall i, j :: InGrid(nc, i, j) ==> r.dataset.data.rows[i][j] == nc.rows[i][j] + c.rows[i][j])
  {
    assert RainTotal(f) == Sum(nc, c);
  }

  /** The branch of PR between whole days, with a non-empty `step_b`: this
      file's accumulation minus the previous file's. */
  lemma IntervalBranch(f: WrfFile, fr: Frame, stepB: Option<string>, prior: WrfFile, humidity: Humidity,
                       nc: Matrix, c: Matrix, ncB: Matrix, cB: Matrix)
    requires fr.time.lead != 0.0 && stepB.Some? && stepB.value != ""
    requires PlaneOf(f, "RAINNC", nc) && PlaneOf(f, "RAINC", c)
    requires PlaneOf(prior, "RAINNC", ncB) && PlaneOf(prior, "RAINC", cB)
    ensures var r := Transform(f, PR, fr, stepB, prior, humidity);
      && (r.Populated? <==> SameShape(nc, c) && SameShape(ncB, cB) && SameShape(nc, ncB) && Fits(fr, nc))
      && (r.Populated? ==>
            && SameShape(r.dataset.data, nc)
            && forall i, j :: InGrid(nc, i, j) ==>
                 r.dataset.data.rows[i][j] == (nc.rows[i][j] + c.rows[i][j]) - (ncB.rows[i][j] + cB.rows[i][j]))
  {
    assert RainTotal(f) == Sum(nc, c);
    assert RainTotal(prior) == Sum(ncB, cB);
  }

  /** At a whole number of days from the start the previous file is not read. */
  lemma PrecipitationIgnoresPriorAtWholeDays(f: WrfFile, varname: string, opts: Options, prior1: WrfFile, prior2: WrfFile, humidity: Humidity)
    requires Prelude(f, opts.yearSince).Success? && Prelude(f, opts.yearSince).value.time.lead == 0.0
    requires Upper(varname) == KeyName(PR)
    ensures Convert(f, varname, opts, prior1, humidity) == Convert(f, varname, opts, prior2, humidity)
  {
    var fr := Prelude(f, opts.yearSince).value;
    ConvertSelects(f, varname, opts, prior1, humidity, fr, PR);
    ConvertSelects(f, varname, opts, prior2, humidity, fr, PR);
    WholeDaysIgnorePriorBranch(f, fr, opts.stepB, prior1, prior2, humidity);
  }

  /** At a whole number of days from the start the rain is everything
      accumulated, RAINNC + RAINC. */
  lemma PrecipitationAtWholeDays(f: WrfFile, varname: string, opts: Options, prior: WrfFile, humidity: Humidity,
                                 nc: Matrix, c: Matrix)
    requires Prelude(f, opts.yearSince).Success? && Prelude(f, opts.yearSince).value.time.lead == 0.0
    requires Upper(varname) == KeyName(PR) && opts.stepB.Some? && opts.stepB.value != ""
    requires PlaneOf(f, "RAINNC", nc) && PlaneOf(f, "RAINC", c)
    ensures var r := Convert(f, varname, opts, prior, humidity);
      && (r.Populated? <==> SameShape(nc, c) && Fits(Prelude(f, opts.yearSince).value, nc))
      && (r.Populated? ==>
            && SameShape(r.dataset.data, nc)
            && forall i, j :: InGrid(nc, i, j) ==> r.dataset.data.rows[i][j] == nc.rows[i][j] + c.rows[i][j])
  {
    var fr := Prelude(f, opts.yearSince).value;
    ConvertSelects(f, varname, opts, prior, humidity, fr, PR);
    WholeDaysBranch(f, fr, opts.stepB, prior, humidity, nc, c);
  }

  /** Between whole days the rain is the accumulation of this file minus
      that of the previous file `step_b` names. */
  lemma PrecipitationOverInterval(f: WrfFile, varname: string, opts: Options, prior: WrfFile, humidity: Humidity,
                                  nc: Matrix, c: Matrix, ncB: Matrix, cB: Matrix)
    requires Prelude(f, opts.yearSince).Success? && Prelude(f, opts.yearSince).value.time.lead != 0.0
    requires Upper(varname) == KeyName(PR) && opts.stepB.Some? && opts.stepB.value != ""
    requires PlaneOf(f, "RAINNC", nc) && PlaneOf(f, "RAINC", c)
    requires PlaneOf(prior, "RAINNC", ncB) && PlaneOf(prior, "RAINC", cB)
    ensures var r := Convert(f, varname, opts, prior, humidity);
      && (r.Populated? <==> SameShape(nc, c) && SameShape(ncB, cB) && SameShape(nc, ncB)
                            && Fits(Prelude(f, opts.yearSince).value, nc))
      && (r.Populated? ==>
            && SameShape(r.dataset.data, nc)
            && forall i, j :: InGrid(nc, i, j) ==>
                 r.dataset.data.rows[i][j] == (nc.rows[i][j] + c.rows[i][j]) - (ncB.rows[i][j] + cB.rows[i][j]))
  {
    var fr := Prelude(f, opts.yearSince).value;
    ConvertSelects(f, varname, opts, prior, humidity, fr, PR);
    IntervalBranch(f, fr, opts.stepB, prior, humidity, nc, c, ncB, cB);
  }
}
