# wrf2gfs_params, modelled in Dafny

`wrfpyx.py` turns one variable of a WRF model output file into a small
GFS-style dataset: a single data variable on `(time[, height_above_ground2],
lat, lon)` with fixed metadata, one time value counted in hours since January
1 of a reference year, and one-dimensional latitude and longitude
coordinates. This project models that conversion, `wrf2gfs_params`, together
with its helper `element_exists`, and proves what the conversion promises.

Modules:

- `Wrappers`: `Option` and `Result`.
- `Calendar`: proleptic Gregorian date-times as Python's `datetime` counts
  them (ordinal day numbers, leap years) and `timedelta` normalisation (whole
  days plus a remainder of seconds in `[0, 86400)`).
- `TimeText`: the two fixed-width texts a WRF file carries, `YYYY-MM-DD_HH:00:00`
  (the `Times` entry) and `YYYY-MM-DD_HH:MM:SS` (`START_DATE`), parsed and
  written with `strptime`/`strftime` semantics.
- `Grids`: rectangular two-dimensional fields, cellwise arithmetic and the
  maximum over vertical levels.
- `WrfData`: the file as a list of named variables plus the `START_DATE`
  attribute, `element_exists`, variable lookup and the collapse of the
  coordinate grids.
- `TimeResolver`: the valid time, start date, lead hours, reference epoch,
  `hours_since` and the CF time units (section 4.4 of the CF Metadata
  Conventions, proleptic Gregorian calendar).
- `Wrfpyx`: the key table and its branches. It has two forms. `Convert` is a
  function stating the result of every branch. `Wrf2GfsParams` is a method
  that takes the source's steps in order. That includes the counting loop
  over the humidity inputs and the rebinding of `nc` to the previous-step
  file. The method is proved equal to `Convert`.
- `WrfpyxProperties`: lemmas about `Convert`.
- `SampleRun`: a sample file on two by two grid points, symbolic in its
  times and values, carried through `Convert` for `t2` and for `pr` over an
  interval.

A call ends in one of four ways (`Outcome`):

- a populated dataset;
- the empty `xr.Dataset()`;
- `Unbound`, the `UnboundLocalError` raised by `return ds` when no branch
  assigned `ds`;
- `Raised(failure)`, for any other exception: a missing key or attribute, a
  malformed time, an empty axis, or an array of the wrong shape.

A field *fits* when `.squeeze()` leaves it two-dimensional (neither axis
has length one) and its rows and columns match the latitude and longitude
vectors (`Wrfpyx.Fits`). A field with one row or one column loses that axis
to `.squeeze()`, and `ncvar[np.newaxis,:,:]` then raises an IndexError.

In these cases the code does something other than what it evidently
intends: the unreachable `elif var == []`, the printed messages and the
truthiness tests. The model follows what the code does. Only the `rain` case
sets a message against the docstring (`wrfpyx.py:95` lists `pr`).

- An unrecognised variable name does not give an empty dataset. The guard at
  `wrfpyx.py:560` compares a string with `[]`, which is never true, so `ds`
  stays unbound and the call raises.
- RH with a missing input also leaves `ds` unbound.
- The message at `wrfpyx.py:565` lists `rain` as a valid name. It is not
  one: the precipitation key is `pr`.
- `step_b = ""` is falsy but not `None`, so the PR branch assigns nothing and
  the call ends `Unbound`.
- `yearsince = 0` is falsy but not `None`, so it is kept. `strptime` then
  rejects it.
- A three-digit year (from `yearsince` or START_DATE) does not give January
  1. `strptime(str(y)+'0101 00', '%Y%m%d %H')` reads `%Y` as the four
  characters `y0`, then `10` as the month and `1` as the day. The epoch at
  `wrfpyx.py:147` is therefore (10·y)-10-01 00:00, and the units read
  `hours since (10y)-10-01T00:00:00Z`. The code evidently intends January 1
  of year y. The model keeps the code's behaviour
  (`TimeResolver.ThreeDigitEpoch`).

## Model

| member | source | states |
|---|---|---|
| `WrfData.ElementExists` | wrfpyx.py:75-79 | true exactly when the element occurs in the list |
| `WrfData.VariableKeys` | wrfpyx.py:381 | one key per variable, in file order, each the variable's name |
| `WrfData.Find` | wrfpyx.py:313 | no result exactly when no variable has the name; a result is the contents of the first variable stored under that name |
| `WrfData.Lookup` | wrfpyx.py:313 | `nc[name]`: through `Find`, nothing exactly when no variable has the name, else the first one's contents |
| `WrfData.LookupMeaning` | wrfpyx.py:381-394 | `nc[name]` succeeds exactly when `name` is among `nc.variables.keys()`, and yields what is stored under it |
| `WrfData.Squeeze` | wrfpyx.py:148-149 | `.squeeze()` on an array of rank at most 2: a grid is left as it is exactly when neither axis has length one |
| `WrfData.SqueezeMeaning` | wrfpyx.py:148-149 | `.squeeze()` removes exactly the axes of length one and keeps every value in its row-major place |
| `WrfData.NarrowCoordinates` | wrfpyx.py:148-154 | a one-column XLONG is kept whole as its column, a one-row XLAT as its row, a single point as a rank-0 array |
| `WrfData.CollapseLon` | wrfpyx.py:151-152 | a rank-2 longitude grid becomes its first row (an empty grid raises IndexError); other ranks pass unchanged |
| `WrfData.CollapseLat` | wrfpyx.py:153-154 | a rank-2 latitude grid becomes its first column (a grid without columns raises IndexError); other ranks pass unchanged |
| `WrfData.CollapseLonRegular` | wrfpyx.py:152 | on a regular grid the collapsed longitudes equal any row |
| `WrfData.CollapseLatRegular` | wrfpyx.py:154 | on a grid whose rows each hold one latitude the collapsed latitudes equal any column |
| `Grids.MaxOverLevels` | wrfpyx.py:449 | `max(dim='bottom_top')`: the same shape as a level, each cell at least that cell on every level and equal to it on one |
| `Calendar.Subtract` | wrfpyx.py:126 | `b - start_date` normalised: whole days plus seconds in [0, 86400) that add up to the exact difference of the two instants |
| `Calendar.DaysBeforeMonthIsSum` | wrfpyx.py:157 | the day-of-year offset table equals the sum of the month lengths before the month |
| `Calendar.MonthsFillYear` | wrfpyx.py:157 | the twelve month lengths add up to the length of the year, leap years included |
| `Calendar.YearStep` | wrfpyx.py:157 | the closed-form day count before a year grows by exactly that year's length |
| `Calendar.DaysBeforeYearIsSum` | wrfpyx.py:157 | the closed-form day count before a year equals the sum of the lengths of all earlier years |
| `Calendar.YearsOrdered` | wrfpyx.py:157 | a year ends no later than any later year begins |
| `Calendar.MonthsOrdered` | wrfpyx.py:157 | a month ends no later than any later month of the same year begins |
| `Calendar.MonthWithinYear` | wrfpyx.py:157 | every month ends within its year |
| `Calendar.OrdinalOrdered` | wrfpyx.py:157 | a date earlier in the calendar has a smaller ordinal |
| `Calendar.BeforeIsEarlier` | wrfpyx.py:126-127 | chronological order of date-times is exactly the order of their instants, and equal instants mean equal date-times |
| `TimeText.ParseValidTime` | wrfpyx.py:124 | `strptime(a, '%Y-%m-%d_%H:00:00')`: a result is a valid on-the-hour date-time (the round trip below says which) |
| `TimeText.ParseStartDate` | wrfpyx.py:125 | `strptime(nc.START_DATE, '%Y-%m-%d_%H:%M:%S')`: a result is a valid date-time (the round trip below says which) |
| `TimeText.DecodeEncode` | wrfpyx.py:124-125 | a zero-padded decimal field is read back as the number written |
| `TimeText.EncodeDecode` | wrfpyx.py:124-125 | a digit field is below 10^width and is rewritten character for character |
| `TimeText.PrefixFields` | wrfpyx.py:124-125 | a written `YYYY-MM-DD_HH` prefix reads back as the year, month, day and hour written |
| `TimeText.PrefixText` | wrfpyx.py:124-125 | a digit prefix of a valid date is the text written for the date it reads as |
| `TimeText.ValidTimeParsesFormat` | wrfpyx.py:124 | the valid-time text written for a valid on-the-hour date-time parses back to it |
| `TimeText.ValidTimeParsedIsFormat` | wrfpyx.py:124 | an accepted valid-time text is the one written for the date-time it parses to |
| `TimeText.ValidTimeRoundTrip` | wrfpyx.py:124 | `strptime(s, '%Y-%m-%d_%H:00:00')` gives t exactly when t is valid, on the hour and s is its text |
| `TimeText.StartDateParsesFormat` | wrfpyx.py:125 | the start-date text written for a valid date-time parses back to it |
| `TimeText.StartDateParsedIsFormat` | wrfpyx.py:125 | an accepted start-date text is the one written for the date-time it parses to |
| `TimeText.StartDateRoundTrip` | wrfpyx.py:125 | `strptime(s, '%Y-%m-%d_%H:%M:%S')` gives t exactly when t is valid and s is its text |
| `TimeResolver.LeadHours` | wrfpyx.py:126-127 | `(b - start_date).seconds/3600`; what it is, is stated by `LeadHoursIsSubDayRemainder` |
| `TimeResolver.ReferenceYear` | wrfpyx.py:130-136 | `yearsince` when given (also a falsy 0), else the start year; `ResolveTimeMeaning` states it of a resolved time |
| `TimeResolver.HoursSince` | wrfpyx.py:157-158 | `delta.days*24 + b.hour`; `HoursSinceIsExact` states it is the exact hour count |
| `TimeResolver.TimeUnits` | wrfpyx.py:169 | `"hours since " + date_sice.strftime(...)`; `UnitsForYear` states what it reads |
| `TimeResolver.EpochFromYear` | wrfpyx.py:147 | `strptime(str(y)+'0101 00', '%Y%m%d %H')` succeeds exactly for 100 <= y <= 9999, at midnight of a valid date |
| `TimeResolver.ResolveTime` | wrfpyx.py:123-171 | on success the valid time, start date and epoch are valid date-times |
| `TimeResolver.LeadHoursIsSubDayRemainder` | wrfpyx.py:126-127 | the lead hours lie in [0, 24), are the sub-day remainder of valid minus start over 3600, and are 0 exactly when the two differ by whole days, also negative or multi-day gaps |
| `TimeResolver.LeadHoursSameDay` | wrfpyx.py:126-127 | on one day with the valid time not before the start, the lead is the plain difference in hours |
| `TimeResolver.HoursSinceIsExact` | wrfpyx.py:157-158 | `delta.days*24 + b.hour` is the exact number of hours from the midnight epoch to the on-the-hour valid time |
| `TimeResolver.WholeDaysUnique` | wrfpyx.py:157-158 | a number of seconds splits one way only into whole days and a sub-day remainder |
| `TimeResolver.HoursSinceIncreasing` | wrfpyx.py:157-158 | for a fixed epoch the time value strictly increases with the valid time |
| `TimeResolver.UnitsForYear` | wrfpyx.py:147-171 | for a four-digit year the epoch is Jan 1 00:00 and the units read `hours since YYYY-01-01T00:00:00Z`, the year recoverable from them |
| `TimeResolver.ResolveTimeMeaning` | wrfpyx.py:123-171 | a resolved time: Times[0] and START_DATE are the texts of the valid time and start date, the epoch comes from `yearsince` or else the start year, at midnight, the hour count is exact, the lead is `LeadHours(valid, start)` and lies in [0, 24), the units name the epoch and the calendar is proleptic_gregorian |
| `TimeResolver.ResolveTimeSucceeds` | wrfpyx.py:123-171 | a file whose Times[0] and START_DATE are the texts of valid date-times, with a reference year in 100..9999, resolves to exactly that valid time, start, lead, epoch, hour count, units and calendar |
| `TimeResolver.MissingTimesRaises` | wrfpyx.py:123 | no `Times` variable: KeyError |
| `TimeResolver.EmptyTimesRaises` | wrfpyx.py:123 | an empty `Times` variable: IndexError |
| `TimeResolver.BadValidTimeRaises` | wrfpyx.py:124 | a Times[0] that is not the text of any valid on-the-hour date-time: ValueError |
| `TimeResolver.MissingStartDateRaises` | wrfpyx.py:125 | no START_DATE attribute: AttributeError |
| `TimeResolver.BadStartDateRaises` | wrfpyx.py:125 | a START_DATE that is not the text of any valid date-time: ValueError |
| `TimeResolver.BadReferenceYearRaises` | wrfpyx.py:147 | a reference year outside 100..9999: ValueError from `strptime` |
| `TimeResolver.ThreeDigitEpoch` | wrfpyx.py:147 | a three-digit year y gives the epoch (10·y)-10-01 00:00, not January 1 of y |
| `Wrfpyx.Convert` | wrfpyx.py:123-574 | the whole call: the prelude's exception, or the branch the upper-cased name selects; `Wrf2GfsParams` and the properties lemmas state it |
| `Wrfpyx.Prelude` | wrfpyx.py:123-154 | time resolution, then XLONG and XLAT read, squeezed and collapsed; `PreludeMeaning`, `PreludeSucceeds` and `CoordinateFailures` state it |
| `Wrfpyx.ParseKey` | wrfpyx.py:299-552 | the branch `varname.upper()` selects, none for any other name; `ParseKeyRecognises` states it |
| `Wrfpyx.Selected` | wrfpyx.py:312-574 | the selected branch, unbound without one; `Dispatch` is proved equal to it |
| `Wrfpyx.Transform` | wrfpyx.py:312-552 | the body of each branch; the `*Branch` lemmas state each one |
| `Wrfpyx.OutputName` | wrfpyx.py:317-544 | the data variable's name per key, Uwind to swrad; `TransformShape` and `PopulatedOutput` state it of every populated result |
| `Wrfpyx.HasHeight` | wrfpyx.py:317-343 | only U10 and V10 carry the `height_above_ground2` level [10]; `PopulatedOutput` states it |
| `Wrfpyx.Dimensions` | wrfpyx.py:317-544 | (time, height_above_ground2, lat, lon) for the winds, (time, lat, lon) otherwise; `TransformShape` states it |
| `Wrfpyx.Attributes` | wrfpyx.py:215-286 | each key's units and GRIB abbreviation; `TransformShape` states it |
| `Wrfpyx.Source` | wrfpyx.py:313-540 | the field each single-field key reads: U10, V10, T2, PSFC, GLW, SWDOWN; `SourceBranch` and `MissingSourceRaises` state it |
| `Wrfpyx.KelvinToCelsius` | wrfpyx.py:357 | `- 273.15`; `TemperatureBranch` states it with its inverse |
| `Wrfpyx.PascalToHectopascal` | wrfpyx.py:427 | `/ 100`; `PressureBranch` states it with its inverse |
| `Wrfpyx.ConvertedField` | wrfpyx.py:357-427 | the field read and converted cell by cell; `TemperatureBranch` and `PressureBranch` state it |
| `Wrfpyx.RequireVariable` | wrfpyx.py:313 | `nc[name]`: KeyError naming the variable when absent, else its contents; `MissingSourceRaises` states it |
| `Wrfpyx.AsGrid` | wrfpyx.py:478-494 | a rank-2 array gives its grid, any other rank BadArray at its first use; `SourceBranch` states it |
| `Wrfpyx.MatchesCoordinates` | wrfpyx.py:359-369 | `xr.Dataset` accepts the lat and lon vectors only with as many values as the data has rows and columns |
| `Wrfpyx.Fits` | wrfpyx.py:359-369 | squeeze left the data two-dimensional and it matches the coordinates; `EmitPopulated` and `TransformShape` state what a fitting field gives |
| `Wrfpyx.PlaneField` | wrfpyx.py:313 | `nc[name].data[:].squeeze()` where a grid is needed: KeyError when absent, BadArray when not rank 2, else the unsqueezed grid |
| `Wrfpyx.Assemble` | wrfpyx.py:359-369 | `xr.Dataset(...)`: IndexError when squeeze left fewer than two axes, an error when the field does not match the coordinates, else the dataset; `EmitPopulated` states it |
| `Wrfpyx.Emit` | wrfpyx.py:357-369 | the branch's exception, or the dataset assembled from its field |
| `Wrfpyx.RelativeHumidity` | wrfpyx.py:394-399 | PSFC, T2 and Q2 read and combined; `HumidityCellsBranch` states it |
| `Wrfpyx.RainTotal` | wrfpyx.py:478-480 | RAINNC and RAINC looked up, in that order, before either is used, then added; `MissingRainRaises` and the precipitation lemmas state it |
| `Wrfpyx.Precipitation` | wrfpyx.py:470-510 | the PR branch; `PrBranch` is proved equal to it and the precipitation lemmas state it |
| `Wrfpyx.Upper` | wrfpyx.py:299 | `varname.upper()`: same length, each ASCII letter upper-cased |
| `Wrfpyx.ParseKeyRecognises` | wrfpyx.py:299-552 | a name selects key k exactly when it upper-cases to k's name |
| `Wrfpyx.Absent` | wrfpyx.py:384-389 | exactly the wanted names not among the keys, at most as many as wanted |
| `Wrfpyx.CheckRhInputs` | wrfpyx.py:383-389 | the loop leaves `not_key` equal to the absent inputs in order PSFC, T2, Q2, and `counter + len(not_key) == 3` |
| `Wrfpyx.HumidityField` | wrfpyx.py:394-399 | computed exactly when the three grids share a shape; each cell is the humidity function of pressure/100, temperature-273.15 and Q2 |
| `Wrfpyx.Sum` | wrfpyx.py:478-480 | `rainnc + rainc` exists exactly for equal shapes, cell by cell the sum |
| `Wrfpyx.Difference` | wrfpyx.py:490 | `ncvar_now - ncvar_before` exists exactly for equal shapes, cell by cell the difference |
| `Wrfpyx.RhBranch` | wrfpyx.py:377-417 | the RH branch taken statement by statement equals its specification: a dataset only when all three inputs were counted |
| `Wrfpyx.PrBranch` | wrfpyx.py:470-510 | the PR branch taken statement by statement, `nc` rebound to the prior file when the lead is not zero, equals its specification |
| `Wrfpyx.ConvertSelects` | wrfpyx.py:299-552 | once the prelude succeeds, the call is the branch of the key the upper-cased name equals |
| `Wrfpyx.Dispatch` | wrfpyx.py:312-574 | the `if var == ...` chain equals the specification of the selected branch, and no branch for an unrecognised name |
| `Wrfpyx.Wrf2GfsParams` | wrfpyx.py:123-574 | the converter statement by statement gives exactly the outcome `Convert` specifies |
| `WrfpyxProperties.UpperIdempotent` | wrfpyx.py:299 | upper-casing twice is upper-casing once |
| `WrfpyxProperties.KeyNameIsUpper` | wrfpyx.py:312-539 | every compared key name is already upper case, so it can be matched |
| `WrfpyxProperties.KeysSelectedByName` | wrfpyx.py:312-539 | every key's own name selects it, and no two keys share a name |
| `WrfpyxProperties.DocumentedNames` | wrfpyx.py:95 | the documented lower-case names select their keys; `rain` from the error message selects none |
| `WrfpyxProperties.ParseKeyNone` | wrfpyx.py:312-560 | no branch is taken exactly when the upper-cased name is no key's name |
| `WrfpyxProperties.ParseKeyIgnoresCase` | wrfpyx.py:299 | a name and its upper-cased form select the same branch |
| `WrfpyxProperties.CaseInsensitive` | wrfpyx.py:299 | the whole call gives the same outcome for a name and its upper-cased form |
| `WrfpyxProperties.PreludeMeaning` | wrfpyx.py:123-154 | a successful prelude resolved the time and read XLONG and XLAT, collapsed |
| `WrfpyxProperties.PreludeFailureRaises` | wrfpyx.py:123-154 | an exception before the branch chain ends every call with it, the time being resolved first |
| `WrfpyxProperties.EmitPopulated` | wrfpyx.py:315-326 | a dataset is built only from a field that was read and fits the coordinates |
| `WrfpyxProperties.TransformPopulated` | wrfpyx.py:312-552 | every populated branch is one dataset assembled from data that fits the coordinates |
| `WrfpyxProperties.TransformShape` | wrfpyx.py:312-552 | a populated branch has the key's name, dimensions and attributes, the single time value and the collapsed coordinates |
| `WrfpyxProperties.ConvertPopulated` | wrfpyx.py:312-574 | a populated call passed the prelude, recognised its name and is that key's branch |
| `WrfpyxProperties.PopulatedOutput` | wrfpyx.py:312-552 | every populated dataset: the key's output name, dimensions and attributes, one time value with the epoch's units and the proleptic_gregorian calendar, height [10] only for U10 and V10, lat/lon vectors matching the data |
| `WrfpyxProperties.PopulatedTime` | wrfpyx.py:157-171 | the single time value is the exact hour count from the midnight epoch to the valid time, and the units name that epoch |
| `WrfpyxProperties.TransformEmpty` | wrfpyx.py:503-510 | only the PR branch without `step_b` gives the empty dataset |
| `WrfpyxProperties.EmptyOnlyWithoutStep` | wrfpyx.py:503-510 | a call ends with the empty dataset only for PR without `step_b` |
| `WrfpyxProperties.UnrecognisedNameUnbound` | wrfpyx.py:560-574 | an unrecognised name leaves `ds` unbound |
| `WrfpyxProperties.SourceBranch` | wrfpyx.py:313 | a missing source field raises a KeyError naming it; one that is not two-dimensional raises |
| `WrfpyxProperties.NarrowFieldRaises` | wrfpyx.py:312-552 | U10, V10, T2, PS, LW and SW on a field with one row or one column raise IndexError at `ncvar[np.newaxis,:,:]`, whatever the coordinates |
| `WrfpyxProperties.MissingSourceRaises` | wrfpyx.py:313-540 | U10, V10, T2, PS, LW and SW raise a KeyError naming U10, V10, T2, PSFC, GLW or SWDOWN when it is missing |
| `WrfpyxProperties.CopyBranch` | wrfpyx.py:313-317 | a copying branch is populated exactly when its field fits, with the field unchanged |
| `WrfpyxProperties.CopiedField` | wrfpyx.py:312-552 | U10, V10, LW and SW are populated exactly when the source fits the coordinates, and hold it unchanged |
| `WrfpyxProperties.TemperatureBranch` | wrfpyx.py:357 | the T2 branch subtracts 273.15 in every cell, and adding it back restores the field |
| `WrfpyxProperties.TemperatureInCelsius` | wrfpyx.py:356-369 | Tair is populated exactly when T2 fits, each cell T2 - 273.15, and + 273.15 restores T2 |
| `WrfpyxProperties.PressureBranch` | wrfpyx.py:427 | the PS branch divides by 100 in every cell, and multiplying back restores the field |
| `WrfpyxProperties.PressureInHectopascals` | wrfpyx.py:426-439 | Pair is populated exactly when PSFC fits, each cell PSFC / 100, and * 100 restores PSFC |
| `WrfpyxProperties.CloudBranch` | wrfpyx.py:449-450 | the CLDFRA branch raises AttributeError when the field is missing and BadArray when it has no levels; with levels it is populated exactly when their maximum fits, and is that maximum |
| `WrfpyxProperties.CloudCoverIsColumnMaximum` | wrfpyx.py:447-462 | cloud is populated exactly when CLDFRA has levels and their maximum fits; each cell is at least every level's value and equals one of them; a missing CLDFRA raises AttributeError, one without levels BadArray |
| `WrfpyxProperties.CloudCoverExample` | wrfpyx.py:449 | levels 0.1, 0.5 and 0.3 give a cover of 0.5 |
| `WrfpyxProperties.MissingRhInputsInOrder` | wrfpyx.py:380-389 | `not_key` is the absent inputs listed in the order PSFC, T2, Q2 |
| `WrfpyxProperties.HumidityInputsBranch` | wrfpyx.py:393-417 | the RH branch leaves `ds` unbound exactly when an input is missing |
| `WrfpyxProperties.HumidityCellsBranch` | wrfpyx.py:393-411 | with all inputs, the RH branch is populated exactly for matching, fitting shapes, each cell the humidity function of hPa, Celsius and Q2 |
| `WrfpyxProperties.HumidityNeedsInputs` | wrfpyx.py:377-417 | RH ends unbound exactly when one of PSFC, T2, Q2 is missing |
| `WrfpyxProperties.HumidityFromInputs` | wrfpyx.py:393-411 | with PSFC, T2 and Q2, Qair is populated exactly for one shared fitting shape, each cell sh2rh(PSFC/100, T2-273.15, Q2) |
| `WrfpyxProperties.MissingRainRaises` | wrfpyx.py:478-488 | with `step_b`, a missing RAINNC and then a missing RAINC raise a KeyError naming it, in this file and then in the previous one, whatever the other field holds |
| `WrfpyxProperties.PrecipitationStepBranch` | wrfpyx.py:472-510 | the PR branch without `step_b` is empty, with an empty-text `step_b` unbound |
| `WrfpyxProperties.PrecipitationNeedsStep` | wrfpyx.py:472-510 | PR without `step_b` ends with the empty dataset whatever the lead, and with an empty-text `step_b` unbound |
| `WrfpyxProperties.WholeDaysIgnorePriorBranch` | wrfpyx.py:477-480 | with a zero lead the PR branch does not depend on the prior file |
| `WrfpyxProperties.PrecipitationIgnoresPriorAtWholeDays` | wrfpyx.py:477-480 | with a zero lead the call gives the same outcome whatever the prior file holds |
| `WrfpyxProperties.WholeDaysBranch` | wrfpyx.py:477-480 | with a zero lead the PR branch is RAINNC + RAINC of this file |
| `WrfpyxProperties.PrecipitationAtWholeDays` | wrfpyx.py:475-501 | with `step_b` and a zero lead, rain is populated exactly for equal fitting shapes, each cell RAINNC + RAINC |
| `WrfpyxProperties.IntervalBranch` | wrfpyx.py:481-490 | with a non-zero lead the PR branch is the current total minus the prior total |
| `WrfpyxProperties.PrecipitationOverInterval` | wrfpyx.py:475-501 | with `step_b` and a non-zero lead, rain is populated exactly for equal fitting shapes, each cell (RAINNC + RAINC) now minus (RAINNC + RAINC) before |
| `WrfpyxProperties.PreludeSucceeds` | wrfpyx.py:123-154 | with resolved time and collapsible XLONG and XLAT, the prelude is that time with the collapsed latitude and longitude |
| `WrfpyxProperties.CoordinateFailures` | wrfpyx.py:148-154 | after the time resolves: missing XLONG, then missing XLAT, is a KeyError; an axis that does not collapse is an IndexError |
| `SampleRun.SampleCoordinates` | wrfpyx.py:123-149 | in a two-by-two sample file `nc['Times']`, `nc['XLONG']` and `nc['XLAT']` find the values stored |
| `SampleRun.SampleFields` | wrfpyx.py:357-488 | in a two-by-two sample file T2, RAINNC and RAINC find the grids stored |
| `SampleRun.SampleTime` | wrfpyx.py:123-171 | a sample file without `yearsince` resolves with its start year's January 1 as epoch |
| `SampleRun.BlockCoordinates` | wrfpyx.py:148-154 | a two-by-two grid survives `.squeeze()`; as XLONG it gives its first row, as XLAT its first column |
| `SampleRun.SamplePrelude` | wrfpyx.py:123-154 | a sample file's prelude succeeds with two latitudes and two longitudes |
| `SampleRun.SampleTemperature` | wrfpyx.py:356-369 | converting `t2` gives Tair = T2 - 273.15 in every cell, at the hour count from the start year's January 1 |
| `SampleRun.SampleInterval` | wrfpyx.py:481-501 | on two-by-two grids with a non-zero lead, the PR branch is this file's RAINNC + RAINC minus the previous file's |
| `SampleRun.SamplePrecipitation` | wrfpyx.py:470-501 | converting `pr` with `step_b` at a non-zero lead gives rain = (RAINNC + RAINC) now minus before in every cell |
| `SampleRun.SixHoursIntoTheDay` | wrfpyx.py:126-158 | 06:00 after a 00:00 start on the same day is a six-hour sub-day remainder and hour count 6 |

## Left out

- Opening files (`xr.open_dataset`) and building the `xr.Dataset`. The file
  is a value (`WrfFile`), the file `step_b` names is passed in already read
  (`prior`), and the result is the record `OutputDataset`. The handles are
  never closed in the source, so there is no lifetime to model.
- Failure to open the `step_b` file is not modelled: `prior` is always a
  readable file.
- `relative_humidity_from_specific_humidity` and the pint units are a
  foreign library. The model passes it in as an uninterpreted function of
  (pressure in hPa, temperature in degrees Celsius, specific humidity).
- IEEE floating point, the NaN fill values and NaN-skipping in `max` are not
  modelled. Values are exact reals, so the linear conversions are exact.
- Variables are held with the single Time step already dropped. Data
  grids are kept unsqueezed through the cellwise arithmetic: on equal shapes
  that arithmetic commutes with `.squeeze()`. What squeezing does to them is
  modelled where it shows, at `ncvar[np.newaxis,:,:]`: a grid with one row
  or one column raises IndexError there.
- numpy broadcasting is not modelled. Grids of different shapes are
  `Raised(BadArray)`, both where numpy would broadcast them and where it
  would raise a ValueError. This includes a one-row grid and a one-column
  grid that squeeze to the same length.
- A variable of another rank than 2, read where a grid is expected, raises
  `BadArray` when first used. numpy might raise an IndexError or TypeError
  there instead, or broadcast the array.
- WrfData.Squeeze: does not squeeze a stack of levels. A rank-3 variable
  with an axis of length one, read where a 2-D field is expected, is
  `BadArray` in the model. numpy would drop that axis and might go on. WRF
  stores these fields as 2-D, so only a malformed file reaches this case.
- A CLDFRA field with an empty `bottom_top` axis is excluded by the `Stack`
  type.
- Attribute dictionaries (`wrfpyx.py:185-286`): only each variable's units
  and abbreviation are kept. The long names, fill values and the
  height/lat/lon coordinate attributes are constant text.
- `print` diagnostics are left out, as is the commented-out CDO time path.
- `strptime` leniency is not modelled. Python also accepts single-digit
  month, day, hour, minute and second fields, and a space-padded day (` 5`
  for `%d`). The model accepts only the canonical fixed-width texts. Leading
  or trailing text is rejected by both.
  `yearsince` values with one, two or five-plus digits raise, as `%Y` needs
  four digits.
- Only an int `yearsince` or none is modelled (`Options.yearSince` is an
  `Option<int>`). A string `yearsince` such as `"0999"` gives 0999-01-01 in
  the source, and the model cannot represent it.
- A `step_b` other than None or a string, and other keyword arguments, are
  not modelled.
- `str.upper()` is modelled on ASCII letters only.
- The `elif hours > 0` test in the PR branch is not modelled as a separate
  test: it is taken whenever the lead is not 0, because the lead is never
  negative (`LeadHoursIsSubDayRemainder`).
