/**
 * A whole call of the converter, worked through on a WRF file of two by two
 * grid points holding one value per field: every step of the prelude
 * succeeds, and converting `t2` or `pr` gives the dataset the branch
 * promises. The file is built from its valid time, start date and values,
 * so the lemmas hold for every such file. (On a grid with a single row or
 * column `.squeeze()` would leave fewer than two axes and the call would
 * raise; `WrfpyxProperties.NarrowFieldRaises` states that case.)
 */
module SampleRun {
  import opened Wrappers
  import opened Calendar
  import opened TimeText
  import opened Grids
  import opened WrfData
  import opened TimeResolver
  import opened Wrfpyx
  import opened WrfpyxProperties

  /** A two-by-two grid holding `x` in every cell. */
  function Block(x: real): Matrix {
    Grid(2, [[x, x], [x, x]])
  }

  /** A file on two by two grid points: Times, START_DATE, the coordinates,
      T2 and the two accumulated rain fields. */
  function SampleFile(valid: DateTime, start: DateTime, lon: real, lat: real, t2: real, rainnc: real, rainc: real): WrfFile
    requires Valid(valid) && Valid(start)
  {
    WrfFile([Variable("Times", Text([FormatValidTime(valid)])),
             Variable("XLONG", Plane(Block(lon))),
             Variable("XLAT", Plane(Block(lat))),
             Variable("T2", Plane(Block(t2))),
             Variable("RAINNC", Plane(Block(rainnc))),
             Variable("RAINC", Plane(Block(rainc)))],
            Some(FormatStartDate(start)))
  }

  /** The file of the previous output step: only its rain fields. */
  function PriorFile(rainnc: real, rainc: real): WrfFile {
    WrfFile([Variable("RAINNC", Plane(Block(rainnc))), Variable("RAINC", Plane(Block(rainc)))], None)
  }

  /** The time and coordinate variables of a sample file, as `nc[name]` finds them. */
  lemma SampleCoordinates(valid: DateTime, start: DateTime, lon: real, lat: real, t2: real, rainnc: real, rainc: real)
    requires Valid(valid) && Valid(start)
    ensures var f := SampleFile(valid, start, lon, lat, t2, rainnc, rainc);
      && Lookup(f, "Times") == Some(Text([FormatValidTime(valid)]))
      && Lookup(f, "XLONG") == Some(Plane(Block(lon))) && Lookup(f, "XLAT") == Some(Plane(Block(lat)))
  {
    var vs := SampleFile(valid, start, lon, lat, t2, rainnc, rainc).variables;
    assert Find(vs, "XLONG") == Find(vs[1..], "XLONG");
    assert Find(vs, "XLAT") == Find(vs[1..], "XLAT") == Find(vs[2..], "XLAT");
  }

  /** The data variables of a sample file. */
  lemma SampleFields(valid: DateTime, start: DateTime, lon: real, lat: real, t2: real, rainnc: real, rainc: real)
    requires Valid(valid) && Valid(start)
    ensures var f := SampleFile(valid, start, lon, lat, t2, rainnc, rainc);
      PlaneOf(f, "T2", Block(t2)) && PlaneOf(f, "RAINNC", Block(rainnc)) && PlaneOf(f, "RAINC", Block(rainc))
  {
    var vs := SampleFile(valid, start, lon, lat, t2, rainnc, rainc).variables;
    assert Find(vs, "T2") == Find(vs[1..], "T2") == Find(vs[2..], "T2") == Find(vs[3..], "T2");
    assert Find(vs, "RAINNC") == Find(vs[1..], "RAINNC") == Find(vs[2..], "RAINNC") == Find(vs[3..], "RAINNC")
      == Find(vs[4..], "RAINNC");
    assert Find(vs, "RAINC") == Find(vs[1..], "RAINC") == Find(vs[2..], "RAINC") == Find(vs[3..], "RAINC")
      == Find(vs[4..], "RAINC") == Find(vs[5..], "RAINC");
  }

  /** The time of a sample file resolves against January 1 of the start year. */
  lemma SampleTime(valid: DateTime, start: DateTime, lon: real, lat: real, t2: real, rainnc: real, rainc: real)
    requires Valid(valid) && OnTheHour(valid) && Valid(start) && 1000 <= start.year <= 9999
    ensures var epoch := DateTime(start.year, 1, 1, 0, 0, 0);
      ResolveTime(SampleFile(valid, start, lon, lat, t2, rainnc, rainc), None)
        == Success(TimeContext(valid, start, LeadHours(valid, start), epoch, HoursSince(epoch, valid), TimeUnits(epoch), CalendarName))
  {
    var f := SampleFile(valid, start, lon, lat, t2, rainnc, rainc);
    assert Lookup(f, "Times") == Some(Text([FormatValidTime(valid)])) by {
      SampleCoordinates(valid, start, lon, lat, t2, rainnc, rainc);
    }
    assert EpochFromYear(ReferenceYear(None, start)) == Some(DateTime(start.year, 1, 1, 0, 0, 0));
    ResolveTimeSucceeds(f, None, [FormatValidTime(valid)], valid, start);
  }

  /** A block survives `.squeeze()`, and collapsing it as XLONG or XLAT gives
      its value twice. */
  lemma BlockCoordinates(x: real)
    ensures Squeeze(Plane(Block(x))) == Plane(Block(x))
    ensures CollapseLon(Squeeze(Plane(Block(x)))) == Success(Vector([x, x]))
    ensures CollapseLat(Squeeze(Plane(Block(x)))) == Success(Vector([x, x]))
  {
    assert FirstColumn(Block(x)) == [x, x];
  }

  /** The prelude of a sample file succeeds: the time is resolved against
      January 1 of the start year and the coordinates are the block's. */
  lemma SamplePrelude(valid: DateTime, start: DateTime, lon: real, lat: real, t2: real, rainnc: real, rainc: real)
    requires Valid(valid) && OnTheHour(valid) && Valid(start) && 1000 <= start.year <= 9999
    ensures var f := SampleFile(valid, start, lon, lat, t2, rainnc, rainc);
      var epoch := DateTime(start.year, 1, 1, 0, 0, 0);
      && Prelude(f, None).Success?
      && Prelude(f, None).value == Frame(
           TimeContext(valid, start, LeadHours(valid, start), epoch, HoursSince(epoch, valid), TimeUnits(epoch), CalendarName),
           Vector([lat, lat]), Vector([lon, lon]))
  {
    var f := SampleFile(valid, start, lon, lat, t2, rainnc, rainc);
    SampleTime(valid, start, lon, lat, t2, rainnc, rainc);
    assert Lookup(f, "XLONG") == Some(Plane(Block(lon))) && Lookup(f, "XLAT") == Some(Plane(Block(lat))) by {
      SampleCoordinates(valid, start, lon, lat, t2, rainnc, rainc);
    }
    BlockCoordinates(lon);
    BlockCoordinates(lat);
    PreludeSucceeds(f, None, Plane(Block(lon)), Plane(Block(lat)));
  }

  /** The names the samples convert, in lower case as a user gives them. */
  lemma SampleNames()
    ensures Upper("t2") == KeyName(T2) && Upper("pr") == KeyName(PR)
  {
  }

  /** A two-by-two grid whose four cells hold `x` is the block of `x`. */
  lemma IsBlock(m: Matrix, x: real)
    requires m.width == 2 && |m.rows| == 2
    requires m.rows[0][0] == x && m.rows[0][1] == x && m.rows[1][0] == x && m.rows[1][1] == x
    ensures m == Block(x)
  {
    assert m.rows[0] == [x, x];
    assert m.rows[1] == [x, x];
    assert m.rows == [[x, x], [x, x]];
  }

  /** The frame of a sample file fits a block. */
  lemma BlockFits(fr: Frame, lon: real, lat: real, x: real)
    requires fr.lat == Vector([lat, lat]) && fr.lon == Vector([lon, lon])
    ensures Fits(fr, Block(x))
  {
  }

  /** Converting `t2` from a sample file gives Tair on the block, in degrees
      Celsius, at the hour count from January 1 of the start year. */
  lemma SampleTemperature(valid: DateTime, start: DateTime, lon: real, lat: real, t2: real, rainnc: real, rainc: real,
                          prior: WrfFile, humidity: Humidity)
    requires Valid(valid) && OnTheHour(valid) && Valid(start) && 1000 <= start.year <= 9999
    ensures var r := Convert(SampleFile(valid, start, lon, lat, t2, rainnc, rainc), "t2", Options(None, None), prior, humidity);
      && r.Populated? && r.dataset.variable == "Tair" && r.dataset.data == Block(t2 - 273.15)
      && r.dataset.time == [HoursSince(DateTime(start.year, 1, 1, 0, 0, 0), valid)]
      && r.dataset.lat == [lat, lat] && r.dataset.lon == [lon, lon]
  {
    var f := SampleFile(valid, start, lon, lat, t2, rainnc, rainc);
    SamplePrelude(valid, start, lon, lat, t2, rainnc, rainc);
    var fr := Prelude(f, None).value;
    var r := Transform(f, T2, fr, None, prior, humidity);
    assert Convert(f, "t2", Options(None, None), prior, humidity) == r by {
      SampleNames();
      ConvertSelects(f, "t2", Options(None, None), prior, humidity, fr, T2);
    }
    assert PlaneOf(f, "T2", Block(t2)) by {
      SampleFields(valid, start, lon, lat, t2, rainnc, rainc);
    }
    BlockFits(fr, lon, lat, t2);
    TemperatureBranch(f, fr, None, prior, humidity, Block(t2));
    TransformShape(f, T2, fr, None, prior, humidity);
    assert InGrid(Block(t2), 0, 0) && InGrid(Block(t2), 0, 1) && InGrid(Block(t2), 1, 0) && InGrid(Block(t2), 1, 1);
    IsBlock(r.dataset.data, t2 - 273.15);
  }

  /** The interval branch on blocks: this file's RAINNC + RAINC minus those
      of the previous file. */
  lemma SampleInterval(f: WrfFile, fr: Frame, path: string, rainnc: real, rainc: real, priorNc: real, priorC: real,
                       humidity: Humidity)
    requires fr.time.lead != 0.0 && path != "" && Fits(fr, Block(rainnc))
    requires PlaneOf(f, "RAINNC", Block(rainnc)) && PlaneOf(f, "RAINC", Block(rainc))
    ensures var r := Transform(f, PR, fr, Some(path), PriorFile(priorNc, priorC), humidity);
      && r.Populated? && r.dataset.variable == "rain" && r.dataset.data == Block((rainnc + rainc) - (priorNc + priorC))
  {
    var prior := PriorFile(priorNc, priorC);
    assert PlaneOf(prior, "RAINC", Block(priorC)) by {
      assert Find(prior.variables, "RAINC") == Find(prior.variables[1..], "RAINC");
    }
    IntervalBranch(f, fr, Some(path), prior, humidity, Block(rainnc), Block(rainc), Block(priorNc), Block(priorC));
    var r := Transform(f, PR, fr, Some(path), prior, humidity);
    TransformShape(f, PR, fr, Some(path), prior, humidity);
    var b := Block(rainnc);
    assert InGrid(b, 0, 0) && InGrid(b, 0, 1) && InGrid(b, 1, 0) && InGrid(b, 1, 1);
    IsBlock(r.dataset.data, (rainnc + rainc) - (priorNc + priorC));
  }

  /** Converting `pr` with `step_b`, at a lead that is not zero (a valid time
      not a whole number of days after the start), gives the rain of the
      interval: this file's RAINNC + RAINC minus the previous file's. */
  lemma SamplePrecipitation(valid: DateTime, start: DateTime, lon: real, lat: real, t2: real, rainnc: real, rainc: real,
                            priorNc: real, priorC: real, path: string, humidity: Humidity)
    requires Valid(valid) && OnTheHour(valid) && Valid(start) && 1000 <= start.year <= 9999
    requires LeadHours(valid, start) != 0.0 && path != ""
    ensures var r := Convert(SampleFile(valid, start, lon, lat, t2, rainnc, rainc), "pr", Options(None, Some(path)),
                             PriorFile(priorNc, priorC), humidity);
      && r.Populated? && r.dataset.variable == "rain" && r.dataset.data == Block((rainnc + rainc) - (priorNc + priorC))
  {
    var f := SampleFile(valid, start, lon, lat, t2, rainnc, rainc);
    SamplePrelude(valid, start, lon, lat, t2, rainnc, rainc);
    var fr := Prelude(f, None).value;
    SampleNames();
    ConvertSelects(f, "pr", Options(None, Some(path)), PriorFile(priorNc, priorC), humidity, fr, PR);
    SampleFields(valid, start, lon, lat, t2, rainnc, rainc);
    BlockFits(fr, lon, lat, rainnc);
    SampleInterval(f, fr, path, rainnc, rainc, priorNc, priorC, humidity);
  }

  /** The six-hour lead of 06:00 after a 00:00 start is not a whole number of days. */
  lemma SixHoursIntoTheDay()
    ensures (Seconds(DateTime(2024, 1, 1, 6, 0, 0)) - Seconds(DateTime(2024, 1, 1, 0, 0, 0))) % SecondsPerDay == 6 * SecondsPerHour
    ensures HoursSince(DateTime(2024, 1, 1, 0, 0, 0), DateTime(2024, 1, 1, 6, 0, 0)) == 6
  {
    HoursSinceIsExact(DateTime(2024, 1, 1, 0, 0, 0), DateTime(2024, 1, 1, 6, 0, 0));
  }
}
