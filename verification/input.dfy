/**
 * Input records. A line keeps its raw text, which decides whether the loaders
 * skip it, and the record that splitting it on commas and converting the
 * numeric fields yields (`None` when the split has the wrong number of fields
 * or a field is not a number).
 */
module Input {
  import opened Wrappers

  /** `id,x,y,cost` */
  datatype NodeRec = NodeRec(id: string, x: real, y: real, cost: real)

  /**
   * `n1,n2,cost`: one undirected edge. The cost is `None` when `float()`
   * rejects it; the loaders convert it only after looking up the end points.
   */
  datatype EdgeRec = EdgeRec(a: string, b: string, cost: Option<real>)

  /** `x,y,diam`: a circular obstacle. */
  datatype ObstRec = ObstRec(x: real, y: real, diam: real)

  datatype Line<+R> = Line(text: string, rec: Option<R>)

  /** The exception a loader raises; each aborts the whole load. */
  datatype LoadError =
    | EmptyLine                  // `line[0]` on an empty string (IndexError)
    | Malformed(text: string)    // unpacking the split or `float()` fails (ValueError)
    | UnknownNode(id: string)    // `nbr[n]` for an id with no node line (KeyError)
    | NoEdges                    // average edge cost over zero edges (ZeroDivisionError)

  datatype Verdict<+R> = Crash(err: LoadError) | Skip | Keep(rec: R)

  /** Comment lines (leading `#`) and lines of at most one character are skipped. */
  predicate Skipped(text: string) {
    |text| > 0 && (text[0] == '#' || |text| <= 1)
  }

  /** What a loader does with one line; the `#` test comes first, so an empty line crashes. */
  function Classify<R>(l: Line<R>): Verdict<R> {
    if |l.text| == 0 then Crash(EmptyLine)
    else if l.text[0] == '#' then Skip
    else if |l.text| <= 1 then Skip
    else match l.rec
      case None => Crash(Malformed(l.text))
      case Some(r) => Keep(r)
  }

  /** The records of the kept lines, in file order; the first crashing line aborts. */
  function Records<R>(lines: seq<Line<R>>): (r: Result<seq<R>, LoadError>)
    ensures r.Success? <==> forall i :: 0 <= i < |lines| ==> !Classify(lines[i]).Crash?
    ensures r.Failure? ==> exists i :: 0 <= i < |lines| && Classify(lines[i]) == Crash(r.error)
    ensures r.Success? ==> |r.value| <= |lines|
  {
    if lines == [] then Success([])
    else match Classify(lines[0])
      case Crash(e) => Failure(e)
      case Skip => Records(lines[1..])
      case Keep(x) =>
        match Records(lines[1..])
        case Failure(e) => Failure(e)
        case Success(xs) => Success([x] + xs)
  }

  /** One line on its own: kept, skipped or crashing. */
  lemma RecordsOfLine<R>(l: Line<R>)
    ensures Classify(l).Skip? ==> Records([l]) == Success([])
    ensures Classify(l).Keep? ==> Records([l]) == Success([Classify(l).rec])
    ensures Classify(l).Crash? ==> Records([l]) == Failure(Classify(l).err)
    ensures Skipped(l.text) <==> Classify(l).Skip?
  {
    assert [l][1..] == [];
    assert Records([l][1..]) == Success([]);
    if Classify(l).Keep? {
      assert [Classify(l).rec] + [] == [Classify(l).rec];
    }
  }

  /** Loading two files one after the other is loading their concatenation. */
  lemma {:induction false} RecordsAppend<R>(a: seq<Line<R>>, b: seq<Line<R>>)
    ensures Records(a + b) ==
      match Records(a)
      case Failure(e) => Failure(e)
      case Success(xs) =>
        match Records(b)
        case Failure(e) => Failure(e)
        case Success(ys) => Success(xs + ys)
  {
    if a == [] {
      assert a + b == b;
      assert Records(a) == Success([]);
      if Records(b).Success? {
        assert [] + Records(b).value == Records(b).value;
      }
    } else {
      assert (a + b)[0] == a[0];
      assert (a + b)[1..] == a[1..] + b;
      RecordsAppend(a[1..], b);
      match Classify(a[0])
      case Crash(e) =>
      case Skip =>
      case Keep(x) =>
        match Records(a[1..])
        case Failure(e) =>
        case Success(xs) =>
          match Records(b)
          case Failure(e) =>
          case Success(ys) =>
            assert [x] + (xs + ys) == ([x] + xs) + ys;
    }
  }
}
