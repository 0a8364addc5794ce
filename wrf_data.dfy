/**
 * What the converter reads from a WRF output file: named variables of a few
 * array kinds and the START_DATE global attribute, together with the
 * exceptions reading them can raise. Each variable is held with the file's
 * single Time step already dropped; `Squeeze` drops its other axes of length
 * one, as `.squeeze()` does where the converter reads it.
 */
module WrfData {
  import opened Wrappers
  import opened Grids

  /** The exceptions the conversion can raise before it reaches `return ds`. */
  datatype Failure =
    | KeyMissing(name: string)        // KeyError from nc[name]
    | AttributeMissing(name: string)  // AttributeError from nc.<name>
    | BadTimeFormat                   // ValueError from strptime or the datetime constructor
    | IndexOutOfRange                 // IndexError from indexing an empty axis
    | BadArray                        // an array of the wrong rank or shape for numpy or xarray

  /** The contents of one variable. */
  datatype Array =
    | Text(entries: seq<string>)      // a character variable such as Times
    | Scalar(value: real)             // rank 0
    | Vector(values: seq<real>)       // rank 1
    | Plane(grid: Matrix)             // rank 2
    | Column(levels: Stack)           // rank 3, the first axis being bottom_top

  datatype Variable = Variable(name: string, data: Array)

  datatype WrfFile = WrfFile(variables: seq<Variable>, startDate: Option<string>)

  /** `element_exists(lst, element)`: `lst.index(element)` succeeds. */
  function ElementExists<T(==)>(lst: seq<T>, element: T): (r: bool)
    ensures r <==> element in lst
  {
    if |lst| == 0 then false
    else if lst[0] == element then true
    else ElementExists(lst[1..], element)
  }

  /** `list(nc.variables.keys())`. */
  function VariableKeys(f: WrfFile): (keys: seq<string>)
    ensures |keys| == |f.variables|
    ensures forall i :: 0 <= i < |keys| ==> keys[i] == f.variables[i].name
  {
    seq(|f.variables|, i requires 0 <= i < |f.variables| => f.variables[i].name)
  }

  /** The contents of the first variable called `name`. */
  function Find(vs: seq<Variable>, name: string): (r: Option<Array>)
    ensures r.None? <==> forall i :: 0 <= i < |vs| ==> vs[i].name != name
    ensures r.Some? ==> exists i :: 0 <= i < |vs| && vs[i] == Variable(name, r.value)
                                    && forall j :: 0 <= j < i ==> vs[j].name != name
  {
    if |vs| == 0 then None
    else if vs[0].name == name then Some(vs[0].data)
    else Find(vs[1..], name)
  }

  /** `nc[name]` (and `nc.name` for a variable). */
  function Lookup(f: WrfFile, name: string): Option<Array> {
    Find(f.variables, name)
  }

  /** A variable is found exactly when its name is among the keys, and what
      is found is stored under that name. */
  lemma LookupMeaning(f: WrfFile, name: string)
    ensures Lookup(f, name).Some? <==> name in VariableKeys(f)
    ensures Lookup(f, name).Some? ==> Variable(name, Lookup(f, name).value) in f.variables
  {
    var keys := VariableKeys(f);
    assert name in keys ==> exists i :: 0 <= i < |keys| && keys[i] == name;
  }

  /** The shape of an array, one length per axis. */
  function Shape(a: Array): seq<nat> {
    match a
    case Text(entries) => [|entries|]
    case Scalar(_) => []
    case Vector(values) => [|values|]
    case Plane(g) => [|g.rows|, g.width]
    case Column(levels) => [|levels|, |levels[0].rows|, levels[0].width]
  }

  /** The values of a numeric array in row-major order. */
  function Cells(a: Array): seq<real>
    requires !a.Text? && !a.Column?
  {
    match a
    case Scalar(x) => [x]
    case Vector(values) => values
    case Plane(g) => Flatten(g.rows)
  }

  function Flatten(rows: seq<seq<real>>): seq<real> {
    if |rows| == 0 then [] else Flatten(rows[..|rows| - 1]) + rows[|rows| - 1]
  }

  /** The lengths of `shape` other than 1. */
  function DropUnitAxes(shape: seq<nat>): (r: seq<nat>)
    ensures |r| <= |shape|
    ensures forall n :: n in r <==> n in shape && n != 1
  {
    if |shape| == 0 then []
    else DropUnitAxes(shape[..|shape| - 1]) + (if shape[|shape| - 1] == 1 then [] else [shape[|shape| - 1]])
  }

  /** A grid that `.squeeze()` leaves two-dimensional: neither axis has length one. */
  predicate KeepsRank(g: Matrix) {
    |g.rows| != 1 && g.width != 1
  }

  /** `.squeeze()` on a numeric array of rank at most 2. A stack of levels and a
      text variable are returned as they are. */
  function Squeeze(a: Array): (r: Array)
    ensures a.Plane? ==> (r == a <==> KeepsRank(a.grid))
  {
    match a
    case Vector(v) => if |v| == 1 then Scalar(v[0]) else a
    case Plane(g) =>
      if |g.rows| == 1 && g.width == 1 then Scalar(g.rows[0][0])
      else if |g.rows| == 1 then Vector(g.rows[0])
      else if g.width == 1 then Vector(FirstColumn(g))
      else a
    case _ => a
  }

  /** A grid one value wide flattens to its only column. */
  lemma {:induction false} FlattenOneWide(g: Matrix)
    requires g.width == 1
    ensures Flatten(g.rows) == FirstColumn(g)
    decreases |g.rows|
  {
    if |g.rows| > 0 {
      var init := Grid(1, g.rows[..|g.rows| - 1]);
      FlattenOneWide(init);
      assert FirstColumn(g) == FirstColumn(init) + [g.rows[|g.rows| - 1][0]];
      assert g.rows[|g.rows| - 1] == [g.rows[|g.rows| - 1][0]];
    }
  }

  /** `.squeeze()` removes exactly the axes of length one and keeps every
      value in its row-major place. */
  lemma SqueezeMeaning(a: Array)
    requires !a.Text? && !a.Column?
    ensures !Squeeze(a).Text? && !Squeeze(a).Column?
    ensures Shape(Squeeze(a)) == DropUnitAxes(Shape(a))
    ensures Cells(Squeeze(a)) == Cells(a)
  {
    match a
    case Scalar(_) =>
    case Vector(v) =>
      assert Shape(a)[..0] == [];
    case Plane(g) =>
      assert Shape(a)[..1] == [|g.rows|];
      assert [|g.rows|][..0] == [];
      if |g.rows| == 1 {
        assert Flatten(g.rows) == Flatten(g.rows[..0]) + g.rows[0];
        if g.width == 1 {
          assert g.rows[0] == [g.rows[0][0]];
        }
      } else if g.width == 1 {
        FlattenOneWide(g);
      }
  }

  /** `lon[0,:]` when the squeezed longitude array has rank 2: its first row. */
  function CollapseLon(a: Array): (r: Result<Array, Failure>)
    ensures a.Plane? && |a.grid.rows| == 0 ==> r == Failure(IndexOutOfRange)
    ensures a.Plane? && |a.grid.rows| > 0 ==> r == Success(Vector(a.grid.rows[0]))
    ensures !a.Plane? ==> r == Success(a)
  {
    match a
    case Plane(g) => if |g.rows| == 0 then Failure(IndexOutOfRange) else Success(Vector(g.rows[0]))
    case _ => Success(a)
  }

  /** The first column of a grid. */
  function FirstColumn(g: Matrix): (v: seq<real>)
    requires g.width > 0
    ensures |v| == |g.rows| && forall i :: 0 <= i < |g.rows| ==> v[i] == g.rows[i][0]
  {
    seq(|g.rows|, i requires 0 <= i < |g.rows| => g.rows[i][0])
  }

  /** `lat[:,0]` when the squeezed latitude array has rank 2: its first column. */
  function CollapseLat(a: Array): (r: Result<Array, Failure>)
    ensures a.Plane? && a.grid.width == 0 ==> r == Failure(IndexOutOfRange)
    ensures a.Plane? && a.grid.width > 0 ==>
      (r.Success? && r.value.Vector? && |r.value.values| == |a.grid.rows|
       && forall i :: 0 <= i < |a.grid.rows| ==> r.value.values[i] == a.grid.rows[i][0])
    ensures !a.Plane? ==> r == Success(a)
  {
    match a
    case Plane(g) => if g.width == 0 then Failure(IndexOutOfRange) else Success(Vector(FirstColumn(g)))
    case _ => Success(a)
  }

  /** A coordinate grid with a single column or a single row is squeezed to
      one dimension and kept whole: XLONG gives its whole column and XLAT its
      whole row, and a single point stays a rank-0 array. */
  lemma NarrowCoordinates(g: Matrix)
    ensures g.width == 1 && |g.rows| != 1 ==> CollapseLon(Squeeze(Plane(g))) == Success(Vector(FirstColumn(g)))
    ensures |g.rows| == 1 && g.width != 1 ==> CollapseLat(Squeeze(Plane(g))) == Success(Vector(g.rows[0]))
    ensures |g.rows| == 1 && g.width == 1 ==>
      CollapseLon(Squeeze(Plane(g))) == CollapseLat(Squeeze(Plane(g))) == Success(Scalar(g.rows[0][0]))
  {
  }

  /** On a regular grid, whose rows all repeat the same longitudes, the
      collapsed longitude vector is any one of the rows. */
  lemma CollapseLonRegular(g: Matrix, k: int)
    requires 0 <= k < |g.rows|
    requires forall i :: 0 <= i < |g.rows| ==> g.rows[i] == g.rows[0]
    ensures CollapseLon(Plane(g)) == Success(Vector(g.rows[k]))
  {
  }

  /** On a regular grid, where every row holds a single latitude, the
      collapsed latitude vector is any one of the columns. */
  lemma CollapseLatRegular(g: Matrix, k: int)
    requires 0 <= k < g.width
    requires forall i, j :: 0 <= i < |g.rows| && 0 <= j < g.width ==> g.rows[i][j] == g.rows[i][0]
    ensures CollapseLat(Plane(g)) == Success(Vector(seq(|g.rows|, i requires 0 <= i < |g.rows| => g.rows[i][k])))
  {
    var column := seq(|g.rows|, i requires 0 <= i < |g.rows| => g.rows[i][k]);
    assert FirstColumn(g) == column;
  }
}
