/** create_adf_esi.py: pick the optimized geometry of each parsed log and
    lay the geometries out as text, either one `.txt` coordinate file per
    log or one combined multi-structure file. */
module AdfEsi {
  import opened Results
  import opened Text
  import opened Paths
  import opened CcData

  // ---------------------------------------------------------------------
  // Frame selection

  /** Why `extract_atom_coordinates` raises: no `atomcoords` attribute, or
      `[-1]` on a trajectory with no frames. */
  datatype CoordError = CoordsMissing | EmptyTrajectory

  /** `extract_atom_coordinates`: the last frame of a trajectory, or the
      single frame of a 2-D coordinate array as it is. */
  function ExtractAtomCoordinates(log: ParsedLog): (r: Result<Frame, CoordError>)
    ensures log.atomcoords.None? ==> r == Failure(CoordsMissing)
    ensures log.atomcoords.Some? && log.atomcoords.value.Geometry? ==> r == Success(log.atomcoords.value.frame)
    ensures log.atomcoords.Some? && log.atomcoords.value.Trajectory? ==>
      var frames := log.atomcoords.value.frames;
      && (r.Success? <==> |frames| > 0)
      && (r.Success? ==> r.value == frames[|frames| - 1])
  {
    match log.atomcoords
    case None => Failure(CoordsMissing)
    case Some(Geometry(frame)) => Success(frame)
    case Some(Trajectory(frames)) =>
      if |frames| == 0 then Failure(EmptyTrajectory) else Success(frames[|frames| - 1])
  }

  /** Only the last frame matters: the intermediate steps of an
      optimization never reach the result. */
  lemma LastFrameOnly(log: ParsedLog, earlier: seq<Frame>, final: Frame)
    requires log.atomcoords == Some(Trajectory(earlier + [final]))
    ensures ExtractAtomCoordinates(log) == Success(final)
  {
  }

  // ---------------------------------------------------------------------
  // The multi-structure file

  /** Why `write_cif` raises, and for which log (and atom). */
  datatype CifError =
    | MissingAttribute(file: nat, attribute: Attribute)
    | NoFrames(file: nat)
    | NotATrajectory(file: nat)
    | MissingAtomicNumber(file: nat, atom: nat)
    | UnknownElement(file: nat, atom: nat, atomicNumber: int)

  /** What the first loop of `write_cif` keeps of one log: the last frame
      and the atomic numbers. */
  datatype Structure = Structure(frame: Frame, atomnos: seq<int>)

  /** `periodic_table.element[n]`: the symbol for atomic number `n`, or
      `None` where the lookup raises. */
  type ElementTable = int -> Option<string>

  /** `'{:,f}'.format(a)` for one coordinate. */
  type Format = real -> string

  /** One pass of the first loop of `write_cif` over log number `file`:
      `atomcoords[-1]`, `natom`, `atomnos`, in that order. */
  function OptimizedStructure(log: ParsedLog, file: nat): (r: Result<Structure, CifError>)
    ensures r.Success? <==>
      && log.atomcoords.Some? && log.atomcoords.value.Trajectory?
      && |log.atomcoords.value.frames| > 0
      && log.natom.Some? && log.atomnos.Some?
    ensures r.Success? ==>
      var frames := log.atomcoords.value.frames;
      r.value == Structure(frames[|frames| - 1], log.atomnos.value)
    ensures r.Failure? ==> r.error.file == file
    ensures log.atomcoords.None? ==> r == Failure(MissingAttribute(file, AtomCoordsAttr))
    ensures log.atomcoords.Some? && log.atomcoords.value.Geometry? ==> r == Failure(NotATrajectory(file))
    ensures log.atomcoords.Some? && log.atomcoords.value.Trajectory? ==>
      var frames := log.atomcoords.value.frames;
      && (|frames| == 0 ==> r == Failure(NoFrames(file)))
      && (|frames| > 0 && log.natom.None? ==> r == Failure(MissingAttribute(file, NatomAttr)))
      && (|frames| > 0 && log.natom.Some? && log.atomnos.None? ==> r == Failure(MissingAttribute(file, AtomnosAttr)))
  {
    match log.atomcoords
    case None => Failure(MissingAttribute(file, AtomCoordsAttr))
    case Some(Geometry(_)) => Failure(NotATrajectory(file))
    case Some(Trajectory(frames)) =>
      if |frames| == 0 then Failure(NoFrames(file))
      else if log.natom.None? then Failure(MissingAttribute(file, NatomAttr))
      else if log.atomnos.None? then Failure(MissingAttribute(file, AtomnosAttr))
      else Success(Structure(frames[|frames| - 1], log.atomnos.value))
  }

  /** The first loop of `write_cif`, over all logs in order. */
  function Structures(logs: seq<ParsedLog>): (r: Result<seq<Structure>, CifError>)
    ensures r.Success? ==> |r.value| == |logs|
    ensures r.Success? ==> forall i {:trigger OptimizedStructure(logs[i], i)} :: 0 <= i < |logs| ==> OptimizedStructure(logs[i], i) == Success(r.value[i])
    ensures r.Failure? ==> r.error.file < |logs| && OptimizedStructure(logs[r.error.file], r.error.file) == Failure(r.error)
    ensures r.Failure? ==> forall j {:trigger OptimizedStructure(logs[j], j)} :: 0 <= j < r.error.file ==> OptimizedStructure(logs[j], j).Success?
    decreases |logs|
  {
    if |logs| == 0 then Success([])
    else
      var n := |logs| - 1;
      var before := logs[..n];
      assert forall i :: 0 <= i < n ==> before[i] == logs[i];
      match Structures(before)
      case Failure(e) => Failure(e)
      case Success(structs) =>
        match OptimizedStructure(logs[n], n)
        case Failure(e) => Failure(e)
        case Success(s) => Success(structs + [s])
  }

  /** `" ".join(v.rjust(15) for v in values)`: each formatted coordinate
      right-justified to width 15, separated by single spaces. */
  function Columns(values: seq<string>): (r: string)
    decreases |values|
  {
    if |values| == 0 then ""
    else if |values| == 1 then RJust(values[0], 15)
    else RJust(values[0], 15) + (" " + Columns(values[1..]))
  }

  /** One atom line: the symbol left-justified to width 3, then the three
      coordinates as columns. */
  function AtomLine(symbol: string, p: Point, fmt: Format): string {
    LJust(symbol, 3) + Columns([fmt(p.x), fmt(p.y), fmt(p.z)])
  }

  /** The columns are the padded coordinates joined with " ", as the
      script builds them. */
  lemma {:induction false} ColumnsIsJoin(values: seq<string>)
    ensures Columns(values) == Join(" ", seq(|values|, k requires 0 <= k < |values| => RJust(values[k], 15)))
    decreases |values|
  {
    var padded := seq(|values|, k requires 0 <= k < |values| => RJust(values[k], 15));
    if |values| > 1 {
      ColumnsIsJoin(values[1..]);
      assert padded[1..] == seq(|values| - 1, k requires 0 <= k < |values| - 1 => RJust(values[1..][k], 15));
    }
  }

  /** Three columns spelled out. */
  lemma ColumnsOfThree(a: string, b: string, c: string)
    ensures Columns([a, b, c]) == RJust(a, 15) + (" " + (RJust(b, 15) + (" " + RJust(c, 15))))
  {
    assert [a, b, c][1..] == [b, c];
    assert [b, c][1..] == [c];
    assert Columns([c]) == RJust(c, 15);
    assert Columns([b, c]) == RJust(b, 15) + (" " + Columns([c]));
  }

  /** An atom line has width max(|symbol|, 3) + Σ max(|coordinate|, 15)
      + 2. */
  lemma AtomLineLength(symbol: string, p: Point, fmt: Format)
    ensures |AtomLine(symbol, p, fmt)| == Max(|symbol|, 3) + Max(|fmt(p.x)|, 15) + Max(|fmt(p.y)|, 15) + Max(|fmt(p.z)|, 15) + 2
  {
    ColumnsOfThree(fmt(p.x), fmt(p.y), fmt(p.z));
  }

  /** Reading the columns back with `split()` gives the coordinate strings,
      as long as none is empty or holds whitespace. */
  lemma {:induction false} ColumnsWords(values: seq<string>)
    requires forall k :: 0 <= k < |values| ==> IsWord(values[k])
    ensures Words(Columns(values)) == values
    decreases |values|
  {
    if |values| == 1 {
      WordsRJust(values[0], 15);
    } else if |values| > 1 {
      var first, rest := RJust(values[0], 15), Columns(values[1..]);
      ColumnsWords(values[1..]);
      WordsRJust(values[0], 15);
      WordsSpaced(first, rest);
      assert [values[0]] + values[1..] == values;
    }
  }

  /** Reading an atom line back with `split()` gives the symbol and the
      three coordinate strings, as long as none is empty or holds
      whitespace and the symbol does not run into the first coordinate. */
  lemma AtomLineWords(symbol: string, p: Point, fmt: Format)
    requires IsWord(symbol) && IsWord(fmt(p.x)) && IsWord(fmt(p.y)) && IsWord(fmt(p.z))
    requires |symbol| < 3 || |fmt(p.x)| < 15
    ensures Words(AtomLine(symbol, p, fmt)) == [symbol, fmt(p.x), fmt(p.y), fmt(p.z)]
  {
    var v := [fmt(p.x), fmt(p.y), fmt(p.z)];
    ColumnsWords(v);
    WordsLJust(symbol, 3);
    LJustMeetsColumns(symbol, v);
    WordsAppend(LJust(symbol, 3), Columns(v));
  }

  /** The padded symbol and the columns meet at a space unless the symbol
      fills its width and the first coordinate fills its own. */
  lemma LJustMeetsColumns(symbol: string, values: seq<string>)
    requires |values| > 0
    requires |symbol| < 3 || |values[0]| < 15
    ensures var sym, cols := LJust(symbol, 3), Columns(values);
      sym == [] || cols == [] || IsSpace(sym[|sym| - 1]) || IsSpace(cols[0])
  {
    var sym, cols := LJust(symbol, 3), Columns(values);
    if |symbol| < 3 {
      assert sym[|sym| - 1] == ' ';
    } else {
      var first := RJust(values[0], 15);
      assert first[0] == ' ';
      assert cols == first || cols == first + (" " + Columns(values[1..]));
    }
  }

  /** Atom `j` has an atomic number and that number has a symbol. */
  predicate Resolves(atomnos: seq<int>, element: ElementTable, j: int) {
    0 <= j < |atomnos| && element(atomnos[j]).Some?
  }

  /** The atom lines of one structure, atom `j` paired with atomic number
      `j`; a missing atomic number or unknown element raises. */
  function AtomLines(frame: Frame, atomnos: seq<int>, file: nat, element: ElementTable, fmt: Format): (r: Result<seq<string>, CifError>)
    ensures r.Success? ==> |r.value| == |frame|
    ensures r.Success? ==> forall j :: 0 <= j < |frame| ==> Resolves(atomnos, element, j)
    ensures r.Failure? ==>
      && r.error.file == file
      && (r.error.MissingAtomicNumber? || r.error.UnknownElement?)
      && r.error.atom < |frame|
      && !Resolves(atomnos, element, r.error.atom)
    ensures r.Failure? && r.error.UnknownElement? ==>
      r.error.atom < |atomnos| && r.error.atomicNumber == atomnos[r.error.atom]
    ensures r.Failure? ==> (r.error.MissingAtomicNumber? <==> r.error.atom >= |atomnos|)
    ensures r.Failure? ==> forall j :: 0 <= j < r.error.atom ==> Resolves(atomnos, element, j)
    decreases |frame|
  {
    if |frame| == 0 then Success([])
    else
      var n := |frame| - 1;
      var before := frame[..n];
      assert forall j :: 0 <= j < n ==> before[j] == frame[j];
      match AtomLines(before, atomnos, file, element, fmt)
      case Failure(e) => Failure(e)
      case Success(lines) =>
        if n >= |atomnos| then
          assert !Resolves(atomnos, element, n);
          Failure(MissingAtomicNumber(file, n))
        else
          match element(atomnos[n])
          case None =>
            assert !Resolves(atomnos, element, n);
            Failure(UnknownElement(file, n, atomnos[n]))
          case Some(symbol) =>
            Success(lines + [AtomLine(symbol, frame[n], fmt)])
  }

  /** `os.path.splitext(n)[0]` of every name, in order. */
  function Stems(names: seq<string>): (r: seq<string>)
    ensures |r| == |names|
    ensures forall i {:trigger Stem(names[i])} :: 0 <= i < |names| ==> r[i] == Stem(names[i])
    decreases |names|
  {
    if |names| == 0 then [] else [Stem(names[0])] + Stems(names[1..])
  }

  /** Line `j` of a structure is the line of atom `j`, with the symbol of
      atomic number `j`. */
  lemma {:induction false} AtomLinesAt(frame: Frame, atomnos: seq<int>, file: nat, element: ElementTable, fmt: Format, j: nat)
    requires AtomLines(frame, atomnos, file, element, fmt).Success? && j < |frame|
    ensures Resolves(atomnos, element, j)
    ensures AtomLines(frame, atomnos, file, element, fmt).value[j] == AtomLine(element(atomnos[j]).value, frame[j], fmt)
    decreases |frame|
  {
    var n := |frame| - 1;
    AtomLinesStep(frame, atomnos, file, element, fmt);
    if j < n {
      AtomLinesAt(frame[..n], atomnos, file, element, fmt, j);
      assert frame[..n][j] == frame[j];
    }
  }

  /** One step of the loop over atoms: the lines of all atoms are the lines
      of all but the last, then the line of the last. */
  lemma AtomLinesStep(frame: Frame, atomnos: seq<int>, file: nat, element: ElementTable, fmt: Format)
    requires AtomLines(frame, atomnos, file, element, fmt).Success? && 0 < |frame|
    ensures AtomLines(frame[..|frame| - 1], atomnos, file, element, fmt).Success?
    ensures Resolves(atomnos, element, |frame| - 1)
    ensures
      var n := |frame| - 1;
      AtomLines(frame, atomnos, file, element, fmt).value ==
        AtomLines(frame[..n], atomnos, file, element, fmt).value + [AtomLine(element(atomnos[n]).value, frame[n], fmt)]
  {
  }

  /** The atom lines exist exactly when every atom resolves to a symbol. */
  lemma AtomLinesSucceedIff(frame: Frame, atomnos: seq<int>, file: nat, element: ElementTable, fmt: Format)
    ensures AtomLines(frame, atomnos, file, element, fmt).Success? <==>
      forall j :: 0 <= j < |frame| ==> Resolves(atomnos, element, j)
  {
    if AtomLines(frame, atomnos, file, element, fmt).Success? {
      forall j | 0 <= j < |frame| ensures Resolves(atomnos, element, j) {
        AtomLinesAt(frame, atomnos, file, element, fmt, j);
      }
    }
  }

  /** Structure `i` has all its atom lines. */
  predicate LinesOk(s: Structure, i: nat, element: ElementTable, fmt: Format) {
    AtomLines(s.frame, s.atomnos, i, element, fmt).Success?
  }

  /** Number of entries the second loop of `write_cif` appends for the
      given structures: per structure its name, one line per atom and a
      "\n" entry. */
  function EntryCount(structs: seq<Structure>): nat
    decreases |structs|
  {
    if |structs| == 0 then 0
    else EntryCount(structs[..|structs| - 1]) + |structs[|structs| - 1].frame| + 2
  }

  /** The second loop of `write_cif`: for structure `i`, read from the log
      named `stems[i]` plus an extension, the stem, the atom lines and a
      "\n" entry are appended to the output list. */
  function Entries(structs: seq<Structure>, stems: seq<string>, element: ElementTable, fmt: Format): (r: Result<seq<string>, CifError>)
    requires |structs| <= |stems|
    ensures r.Success? ==> |r.value| == EntryCount(structs)
    ensures r.Success? ==> forall i {:trigger LinesOk(structs[i], i, element, fmt)} :: 0 <= i < |structs| ==> LinesOk(structs[i], i, element, fmt)
    ensures r.Failure? ==>
      && r.error.file < |structs|
      && AtomLines(structs[r.error.file].frame, structs[r.error.file].atomnos, r.error.file, element, fmt) == Failure(r.error)
    ensures r.Failure? ==> forall i {:trigger LinesOk(structs[i], i, element, fmt)} :: 0 <= i < r.error.file ==> LinesOk(structs[i], i, element, fmt)
    decreases |structs|
  {
    if |structs| == 0 then Success([])
    else
      var n := |structs| - 1;
      var before := structs[..n];
      assert forall i :: 0 <= i < n ==> before[i] == structs[i];
      match Entries(before, stems, element, fmt)
      case Failure(e) => Failure(e)
      case Success(out) =>
        match AtomLines(structs[n].frame, structs[n].atomnos, n, element, fmt)
        case Failure(e) => Failure(e)
        case Success(lines) => Success(out + ([stems[n]] + lines + ["\n"]))
  }

  /** The second loop stops at the first structure with an unresolvable
      atom: it succeeds exactly when every structure resolves. */
  lemma EntriesSucceedIff(structs: seq<Structure>, stems: seq<string>, element: ElementTable, fmt: Format)
    requires |structs| <= |stems|
    ensures Entries(structs, stems, element, fmt).Success? <==>
      forall i :: 0 <= i < |structs| ==> LinesOk(structs[i], i, element, fmt)
  {
    var r := Entries(structs, stems, element, fmt);
    if r.Failure? {
      assert !LinesOk(structs[r.error.file], r.error.file, element, fmt);
    }
  }

  /** The entries of `out` from index `off` on are the block of one
      structure: its stem, its atom lines and a "\n" entry. */
  predicate BlockAt(out: seq<string>, off: nat, stem: string, lines: seq<string>) {
    off + |lines| + 2 <= |out| && out[off..off + |lines| + 2] == [stem] + lines + ["\n"]
  }

  /** Structure `i` in the output list: its stem, its atom lines and a
      "\n" entry, right after the entries of the structures before it. */
  lemma {:induction false} EntriesAt(structs: seq<Structure>, stems: seq<string>, element: ElementTable, fmt: Format, i: nat)
    requires |structs| <= |stems| && i < |structs|
    requires Entries(structs, stems, element, fmt).Success?
    ensures LinesOk(structs[i], i, element, fmt)
    ensures BlockAt(Entries(structs, stems, element, fmt).value, EntryCount(structs[..i]), stems[i],
                    AtomLines(structs[i].frame, structs[i].atomnos, i, element, fmt).value)
    decreases |structs|
  {
    var n := |structs| - 1;
    var prev := Entries(structs[..n], stems, element, fmt).value;
    var lines := AtomLines(structs[n].frame, structs[n].atomnos, n, element, fmt).value;
    EntriesStep(structs, stems, element, fmt);
    if i == n {
      assert structs[..n] == structs[..i];
      BlockAtEnd(prev, stems[n], lines);
    } else {
      EntriesAt(structs[..n], stems, element, fmt, i);
      assert structs[..n][i] == structs[i] && structs[..n][..i] == structs[..i];
      BlockAtAppend(prev, [stems[n]] + lines + ["\n"], EntryCount(structs[..i]), stems[i],
                    AtomLines(structs[i].frame, structs[i].atomnos, i, element, fmt).value);
    }
  }

  /** A block appended to a list sits right after the old entries. */
  lemma BlockAtEnd(prev: seq<string>, stem: string, lines: seq<string>)
    ensures BlockAt(prev + ([stem] + lines + ["\n"]), |prev|, stem, lines)
  {
    var block := [stem] + lines + ["\n"];
    assert (prev + block)[|prev|..|prev| + |block|] == block;
  }

  /** Appending entries leaves a block in place. */
  lemma BlockAtAppend(prev: seq<string>, more: seq<string>, off: nat, stem: string, lines: seq<string>)
    requires BlockAt(prev, off, stem, lines)
    ensures BlockAt(prev + more, off, stem, lines)
  {
    assert (prev + more)[off..off + |lines| + 2] == prev[off..off + |lines| + 2];
  }

  /** One step of the second loop: the entries of all structures are the
      entries of all but the last, then the block of the last. */
  lemma EntriesStep(structs: seq<Structure>, stems: seq<string>, element: ElementTable, fmt: Format)
    requires 0 < |structs| <= |stems|
    requires Entries(structs, stems, element, fmt).Success?
    ensures Entries(structs[..|structs| - 1], stems, element, fmt).Success?
    ensures LinesOk(structs[|structs| - 1], |structs| - 1, element, fmt)
    ensures
      var n := |structs| - 1;
      Entries(structs, stems, element, fmt).value ==
        Entries(structs[..n], stems, element, fmt).value
        + ([stems[n]] + AtomLines(structs[n].frame, structs[n].atomnos, n, element, fmt).value + ["\n"])
  {
  }

  /** The list `write_cif` joins: the entries of all structures, then one
      closing "\n" entry. */
  function CifLines(logs: seq<ParsedLog>, names: seq<string>, element: ElementTable, fmt: Format): (r: Result<seq<string>, CifError>)
    requires |logs| <= |names|
    ensures r.Success? ==> Structures(logs).Success?
    ensures r.Success? ==>
      && |r.value| == EntryCount(Structures(logs).value) + 1
      && r.value[|r.value| - 1] == "\n"
    ensures Structures(logs).Failure? ==> r == Failure(Structures(logs).error)
    ensures Structures(logs).Success? && r.Failure? ==>
      Entries(Structures(logs).value, Stems(names), element, fmt) == Failure(r.error)
  {
    var structs :- Structures(logs);
    var out :- Entries(structs, Stems(names), element, fmt);
    Success(out + ["\n"])
  }

  /** `write_cif` without the file write: the list joined with "\n". */
  function WriteCif(logs: seq<ParsedLog>, names: seq<string>, element: ElementTable, fmt: Format): Result<string, CifError>
    requires |logs| <= |names|
  {
    var lines :- CifLines(logs, names, element, fmt);
    Success(Join("\n", lines))
  }

  /** Layout of the combined file: structure `i` occupies the entries
      starting after those of the structures before it: the name of log `i`
      without its extension, one line per atom of the last frame of log `i`
      in atom order, then a "\n" entry. */
  lemma CifStructureAt(logs: seq<ParsedLog>, names: seq<string>, element: ElementTable, fmt: Format, i: nat)
    requires |logs| <= |names| && i < |logs|
    requires CifLines(logs, names, element, fmt).Success?
    ensures Structures(logs).Success?
    ensures LinesOk(Structures(logs).value[i], i, element, fmt)
    ensures
      var s := Structures(logs).value[i];
      BlockAt(CifLines(logs, names, element, fmt).value, EntryCount(Structures(logs).value[..i]), Stem(names[i]),
              AtomLines(s.frame, s.atomnos, i, element, fmt).value)
  {
    CifBlockAt(logs, names, element, fmt, i);
  }

  /** Structure `i` in the combined list, with its stem taken from the
      stems of all names. */
  lemma CifBlockAt(logs: seq<ParsedLog>, names: seq<string>, element: ElementTable, fmt: Format, i: nat)
    requires |logs| <= |names| && i < |logs|
    requires CifLines(logs, names, element, fmt).Success?
    ensures Structures(logs).Success?
    ensures LinesOk(Structures(logs).value[i], i, element, fmt)
    ensures
      var s := Structures(logs).value[i];
      BlockAt(CifLines(logs, names, element, fmt).value, EntryCount(Structures(logs).value[..i]), Stems(names)[i],
              AtomLines(s.frame, s.atomnos, i, element, fmt).value)
  {
    CifLinesStep(logs, names, element, fmt);
    var structs := Structures(logs).value;
    var stems := Stems(names);
    EntriesAt(structs, stems, element, fmt, i);
    BlockAtAppend(Entries(structs, stems, element, fmt).value, ["\n"], EntryCount(structs[..i]), stems[i],
                  AtomLines(structs[i].frame, structs[i].atomnos, i, element, fmt).value);
  }

  /** The combined list is the output of the second loop plus the closing
      "\n" entry. */
  lemma CifLinesStep(logs: seq<ParsedLog>, names: seq<string>, element: ElementTable, fmt: Format)
    requires |logs| <= |names|
    requires CifLines(logs, names, element, fmt).Success?
    ensures Structures(logs).Success?
    ensures |Structures(logs).value| == |logs|
    ensures Entries(Structures(logs).value, Stems(names), element, fmt).Success?
    ensures CifLines(logs, names, element, fmt).value == Entries(Structures(logs).value, Stems(names), element, fmt).value + ["\n"]
  {
  }

  /** The first loop succeeds exactly when every log has its attributes
      and a frame. */
  lemma StructuresSucceedIff(logs: seq<ParsedLog>)
    ensures Structures(logs).Success? <==> forall i :: 0 <= i < |logs| ==> OptimizedStructure(logs[i], i).Success?
  {
    var r := Structures(logs);
    if r.Failure? {
      assert OptimizedStructure(logs[r.error.file], r.error.file).Failure?;
    }
  }

  /** The combined list fails exactly when some log lacks an attribute or a
      frame, or some atom of an optimized structure has no symbol. */
  lemma CifLinesSucceedIff(logs: seq<ParsedLog>, names: seq<string>, element: ElementTable, fmt: Format)
    requires |logs| <= |names|
    ensures CifLines(logs, names, element, fmt).Success? <==>
      && Structures(logs).Success?
      && forall i :: 0 <= i < |logs| ==> LinesOk(Structures(logs).value[i], i, element, fmt)
  {
    if Structures(logs).Success? {
      EntriesSucceedIff(Structures(logs).value, Stems(names), element, fmt);
    }
  }

  // ---------------------------------------------------------------------
  // The per-log coordinate file

  /** The text `write_xyz` writes: the `writexyz()` text without its first
      two lines, with one "\n" appended. */
  function TrimXyz(xyz: string): string {
    var lines := SplitOn(xyz, '\n');
    Join("\n", if |lines| <= 2 then [] else lines[2..]) + "\n"
  }

  /** `write_xyz` without the file write: `<stem>.txt` and its content. */
  function WriteXyz(log: ParsedLog, filename: string): (r: OutputFile)
    ensures r.name == Stem(filename) + ".txt"
    ensures |r.content| > 0 && r.content[|r.content| - 1] == '\n'
  {
    OutputFile(Stem(filename) + ".txt", TrimXyz(log.xyz))
  }

  /** The atom-count line and the comment line of an xyz text are dropped,
      the rest is kept verbatim and ends in exactly one added "\n". */
  lemma TrimXyzDropsHeader(count: string, comment: string, body: string)
    requires '\n' !in count && '\n' !in comment
    ensures TrimXyz(count + "\n" + comment + "\n" + body) == body + "\n"
  {
    var s := count + "\n" + comment + "\n" + body;
    SplitOnCons(comment, '\n', body);
    assert count + "\n" + comment + "\n" + body == count + ['\n'] + (comment + ['\n'] + body);
    SplitOnCons(count, '\n', comment + ['\n'] + body);
    var lines := SplitOn(s, '\n');
    assert lines == [count, comment] + SplitOn(body, '\n');
    assert lines[2..] == SplitOn(body, '\n');
    JoinSplitOn(body, '\n');
  }

  /** A text of at most two lines leaves only the added "\n". */
  lemma TrimXyzShort(first: string, second: string)
    requires '\n' !in first && '\n' !in second
    ensures TrimXyz(first) == "\n"
    ensures TrimXyz(first + "\n" + second) == "\n"
  {
    SplitOnNoSep(first, '\n');
    SplitOnNoSep(second, '\n');
    SplitOnCons(first, '\n', second);
    assert first + "\n" + second == first + ['\n'] + second;
  }

  // ---------------------------------------------------------------------
  // Output dispatch

  /** `main` after parsing: 'xyz' writes one coordinate file per log, in
      order; 'cif' writes the combined file under the requested name; any
      other format writes nothing. Log `i` was parsed from `names[i]`. */
  function EsiMain(format: string, names: seq<string>, logs: seq<ParsedLog>, outputName: string,
                   element: ElementTable, fmt: Format): (r: Result<seq<OutputFile>, CifError>)
    requires |names| == |logs|
    ensures format == "xyz" ==> r.Success? && |r.value| == |logs|
    ensures format == "xyz" ==> forall i :: 0 <= i < |logs| ==>
      r.value[i] == OutputFile(Stem(names[i]) + ".txt", TrimXyz(logs[i].xyz))
    ensures format == "cif" ==> (r.Success? <==> CifLines(logs, names, element, fmt).Success?)
    ensures format == "cif" && r.Failure? ==> CifLines(logs, names, element, fmt) == Failure(r.error)
    ensures format == "cif" && r.Success? ==>
      r.value == [OutputFile(outputName, Join("\n", CifLines(logs, names, element, fmt).value))]
    ensures format != "xyz" && format != "cif" ==> r == Success([])
  {
    if format == "xyz" then
      Success(seq(|logs|, i requires 0 <= i < |logs| => WriteXyz(logs[i], names[i])))
    else if format == "cif" then
      match WriteCif(logs, names, element, fmt)
      case Failure(e) => Failure(e)
      case Success(text) => Success([OutputFile(outputName, text)])
    else
      Success([])
  }
}
