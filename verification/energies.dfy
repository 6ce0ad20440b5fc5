/** extract_energies.py: scan each Gaussian log line by line for five
    thermochemistry markers, keep the whitespace token each marker names,
    and print one tab-separated row per log. */
module ExtractEnergies {
  import opened Results
  import opened Text
  import opened Paths

  /** The dictionary keys `extract_data` fills, in column order:
      'scf_energy', 'zpve', 'energy', 'enthalpy', 'gibbsenergy'. */
  datatype Key = ScfEnergy | Zpve | Energy | Enthalpy | GibbsEnergy

  /** The dictionary `extract_data` returns. */
  type Energies = map<Key, real>

  /** Python's `float(token)`: the number a token denotes, or `None` where
      `float` raises `ValueError`. */
  type Parse = string -> Option<real>

  /** The five tests in the order the source runs them, which is also the
      order of the columns of the full row after the name. */
  const AllKeys: seq<Key> := [ScfEnergy, Zpve, Energy, Enthalpy, GibbsEnergy]

  /** Columns of the short row after the name. */
  const ShortKeys: seq<Key> := [ScfEnergy, Enthalpy, GibbsEnergy]

  /** Position of `k` among the tests, which is also its column in the
      full row. */
  function KeyIndex(k: Key): (r: nat)
    ensures r < |AllKeys| && AllKeys[r] == k
  {
    match k
    case ScfEnergy => 0
    case Zpve => 1
    case Energy => 2
    case Enthalpy => 3
    case GibbsEnergy => 4
  }

  lemma AllKeysComplete(k: Key)
    ensures k in AllKeys
  {
  }

  /** The marker test for key `k`: characters 1 to 8 of the line for the SCF
      energy, a substring test for the four thermal corrections. */
  predicate Marks(k: Key, line: string) {
    match k
    case ScfEnergy => Slice(line, 1, 9) == "SCF Done"
    case Zpve => Contains(line, "Zero-point correction")
    case Energy => Contains(line, "Thermal correction to Energy")
    case Enthalpy => Contains(line, "Thermal correction to Enthalpy")
    case GibbsEnergy => Contains(line, "Thermal correction to Gibbs Free Energy")
  }

  /** Which whitespace token of a marked line holds the value. */
  function TokenIndex(k: Key): nat {
    match k
    case ScfEnergy => 4
    case Zpve => 2
    case Energy => 4
    case Enthalpy => 4
    case GibbsEnergy => 6
  }

  /** Why reading a marked line fails: `IndexError` from `split()[i]`, or
      `ValueError` from `float`. */
  datatype Reason = IndexOutOfRange | NotAFloat

  /** `float(line.split()[TokenIndex(k)])`. */
  function Reading(k: Key, line: string, parse: Parse): Result<real, Reason> {
    var tokens := Words(line);
    if TokenIndex(k) < |tokens| then
      match parse(tokens[TokenIndex(k)])
      case Some(v) => Success(v)
      case None => Failure(NotAFloat)
    else
      Failure(IndexOutOfRange)
  }

  /** The SCF test matches exactly the lines that have "SCF Done" at
      positions 1 to 8; a line shorter than 9 characters never matches. */
  lemma ScfMarkerIff(line: string)
    ensures Marks(ScfEnergy, line) <==> 9 <= |line| && line[1..9] == "SCF Done"
  {
    var t := Slice(line, 1, 9);
    if 9 <= |line| {
      assert t == line[1..9];
    } else {
      assert |t| < 8;
    }
  }

  /** On a line that is a space-separated list of tokens, the value read for
      `k` is the token at `TokenIndex(k)`, and a line with too few tokens is
      an `IndexError`. */
  lemma ReadingOfTokens(k: Key, tokens: seq<string>, parse: Parse)
    requires forall i :: 0 <= i < |tokens| ==> IsWord(tokens[i])
    ensures TokenIndex(k) < |tokens| && parse(tokens[TokenIndex(k)]).Some? ==>
      Reading(k, Join(" ", tokens), parse) == Success(parse(tokens[TokenIndex(k)]).value)
    ensures TokenIndex(k) < |tokens| && parse(tokens[TokenIndex(k)]).None? ==>
      Reading(k, Join(" ", tokens), parse) == Failure(NotAFloat)
    ensures |tokens| <= TokenIndex(k) ==> Reading(k, Join(" ", tokens), parse) == Failure(IndexOutOfRange)
  {
    WordsJoin(tokens);
  }

  /** Every marked key among the first `j` of `keys` reads. */
  predicate ReadsBefore(keys: seq<Key>, j: int, line: string, parse: Parse)
    requires j <= |keys|
  {
    forall i :: 0 <= i < j && Marks(keys[i], line) ==> Reading(keys[i], line, parse).Success?
  }

  /** A failure found in the tail of `keys` is the first in `keys` too, when
      the head key either carries no marker or reads. */
  lemma FirstFailureShift(keys: seq<Key>, line: string, parse: Parse, k: Key)
    requires |keys| > 0
    requires Marks(keys[0], line) ==> Reading(keys[0], line, parse).Success?
    requires exists j :: 0 <= j < |keys| - 1 && keys[1..][j] == k && ReadsBefore(keys[1..], j, line, parse)
    ensures exists j :: 0 <= j < |keys| && keys[j] == k && ReadsBefore(keys, j, line, parse)
  {
    var j :| 0 <= j < |keys| - 1 && keys[1..][j] == k && ReadsBefore(keys[1..], j, line, parse);
    assert keys[j + 1] == k;
    forall i | 0 <= i < j + 1 && Marks(keys[i], line) ensures Reading(keys[i], line, parse).Success? {
      if i > 0 {
        assert keys[i] == keys[1..][i - 1];
      }
    }
    assert ReadsBefore(keys, j + 1, line, parse);
  }

  /** Runs the tests of `keys`, in order, on one line: every key whose
      marker the line carries is overwritten, every other key keeps its
      value; the first marked key whose reading fails stops the scan. */
  function ApplyRules(acc: Energies, line: string, keys: seq<Key>, parse: Parse): (r: Result<Energies, (Key, Reason)>)
    ensures r.Success? <==> forall k :: k in keys && Marks(k, line) ==> Reading(k, line, parse).Success?
    ensures r.Success? ==> forall k :: k in r.value <==> k in acc || (k in keys && Marks(k, line))
    ensures r.Success? ==> forall k :: k in keys && Marks(k, line) ==> r.value[k] == Reading(k, line, parse).value
    ensures r.Success? ==> forall k :: k in acc && !(k in keys && Marks(k, line)) ==> r.value[k] == acc[k]
    ensures r.Failure? ==> r.error.0 in keys && Marks(r.error.0, line) && Reading(r.error.0, line, parse) == Failure(r.error.1)
    ensures r.Failure? ==> exists j :: 0 <= j < |keys| && keys[j] == r.error.0 && ReadsBefore(keys, j, line, parse)
    decreases |keys|
  {
    if |keys| == 0 then Success(acc)
    else
      var k := keys[0];
      if Marks(k, line) then
        match Reading(k, line, parse)
        case Failure(why) =>
          assert ReadsBefore(keys, 0, line, parse);
          Failure((k, why))
        case Success(v) =>
          var r := ApplyRules(acc[k := v], line, keys[1..], parse);
          if r.Failure? then FirstFailureShift(keys, line, parse, r.error.0); r else r
      else
        var r := ApplyRules(acc, line, keys[1..], parse);
        if r.Failure? then FirstFailureShift(keys, line, parse, r.error.0); r else r
  }

  /** The first failure in `AllKeys` has every key tested before it
      reading cleanly. */
  lemma FirstFailureInTestOrder(line: string, parse: Parse, k: Key)
    requires exists j :: 0 <= j < |AllKeys| && AllKeys[j] == k && ReadsBefore(AllKeys, j, line, parse)
    ensures forall k' :: KeyIndex(k') < KeyIndex(k) && Marks(k', line) ==> Reading(k', line, parse).Success?
  {
    var j :| 0 <= j < |AllKeys| && AllKeys[j] == k && ReadsBefore(AllKeys, j, line, parse);
    assert j == KeyIndex(k);
  }

  /** Every marker a line carries can be read. */
  predicate LineReads(line: string, parse: Parse) {
    forall k :: Marks(k, line) ==> Reading(k, line, parse).Success?
  }

  /** One iteration of the loop of `extract_data`: the five separate `if`s. */
  function ScanLine(acc: Energies, line: string, parse: Parse): (r: Result<Energies, (Key, Reason)>)
    ensures r.Success? <==> LineReads(line, parse)
    ensures r.Success? ==> forall k :: k in r.value <==> k in acc || Marks(k, line)
    ensures r.Success? ==> forall k :: Marks(k, line) ==> r.value[k] == Reading(k, line, parse).value
    ensures r.Success? ==> forall k :: k in acc && !Marks(k, line) ==> r.value[k] == acc[k]
    ensures r.Failure? ==> Marks(r.error.0, line) && Reading(r.error.0, line, parse) == Failure(r.error.1)
    ensures r.Failure? ==> forall k :: KeyIndex(k) < KeyIndex(r.error.0) && Marks(k, line) ==> Reading(k, line, parse).Success?
    ensures (forall k :: !Marks(k, line)) ==> r == Success(acc)
  {
    forall k: Key ensures k in AllKeys {
      AllKeysComplete(k);
    }
    var r := ApplyRules(acc, line, AllKeys, parse);
    assert (forall k :: !Marks(k, line)) ==> r.Success? && r.value == acc;
    if r.Failure? then FirstFailureInTestOrder(line, parse, r.error.0); r else r
  }

  /** Index of the last line carrying the marker of `k`, searched from the
      end. */
  function LastMarked(k: Key, lines: seq<string>): (r: Option<nat>)
    ensures r.Some? ==> r.value < |lines| && Marks(k, lines[r.value])
    ensures r.Some? ==> forall j :: r.value < j < |lines| ==> !Marks(k, lines[j])
    ensures r.None? ==> forall j :: 0 <= j < |lines| ==> !Marks(k, lines[j])
    decreases |lines|
  {
    if |lines| == 0 then None
    else if Marks(k, lines[|lines| - 1]) then Some(|lines| - 1)
    else LastMarked(k, lines[..|lines| - 1])
  }

  /** Every marked line of the log can be read. */
  predicate ReadsCleanly(lines: seq<string>, parse: Parse) {
    forall i :: 0 <= i < |lines| ==> LineReads(lines[i], parse)
  }

  /** The exception `extract_data` raises: which line, which key, why. */
  datatype ExtractError = ExtractError(lineNo: nat, key: Key, reason: Reason)

  /** `extract_data`: the loop over the log's lines, written as the state
      after the first |lines| lines; an exception in a line ends the loop. */
  function ExtractData(lines: seq<string>, parse: Parse): Result<Energies, ExtractError>
    decreases |lines|
  {
    if |lines| == 0 then Success(map[])
    else
      var n := |lines| - 1;
      match ExtractData(lines[..n], parse)
      case Failure(e) => Failure(e)
      case Success(m) =>
        match ScanLine(m, lines[n], parse)
        case Failure(err) => Failure(ExtractError(n, err.0, err.1))
        case Success(m') => Success(m')
  }

  lemma ReadsCleanlySnoc(lines: seq<string>, parse: Parse)
    requires |lines| > 0
    ensures ReadsCleanly(lines, parse) <==>
      ReadsCleanly(lines[..|lines| - 1], parse) && LineReads(lines[|lines| - 1], parse)
  {
    var before := lines[..|lines| - 1];
    assert forall i :: 0 <= i < |before| ==> before[i] == lines[i];
  }

  /** Extraction succeeds exactly when every marked line has enough tokens
      and its token is a number: a short marked line is an error, not
      skipped. */
  lemma {:induction false} ExtractSucceedsIff(lines: seq<string>, parse: Parse)
    ensures ExtractData(lines, parse).Success? <==> ReadsCleanly(lines, parse)
    decreases |lines|
  {
    if |lines| > 0 {
      var n := |lines| - 1;
      ExtractSucceedsIff(lines[..n], parse);
      ReadsCleanlySnoc(lines, parse);
    }
  }

  /** A failure names the first line that raised: that line carries the
      key's marker, its reading fails for the reason given, and every line
      before it reads cleanly. */
  lemma {:induction false} ExtractFailure(lines: seq<string>, parse: Parse)
    requires ExtractData(lines, parse).Failure?
    ensures var e := ExtractData(lines, parse).error;
      && e.lineNo < |lines|
      && Marks(e.key, lines[e.lineNo])
      && Reading(e.key, lines[e.lineNo], parse) == Failure(e.reason)
      && ReadsCleanly(lines[..e.lineNo], parse)
      && forall k :: KeyIndex(k) < KeyIndex(e.key) && Marks(k, lines[e.lineNo]) ==> Reading(k, lines[e.lineNo], parse).Success?
    decreases |lines|
  {
    var n := |lines| - 1;
    var before := lines[..n];
    if ExtractData(before, parse).Failure? {
      ExtractFailure(before, parse);
      var e := ExtractData(before, parse).error;
      assert before[e.lineNo] == lines[e.lineNo];
      assert lines[..e.lineNo] == before[..e.lineNo];
    } else {
      ExtractSucceedsIff(before, parse);
    }
  }

  /** Last occurrence wins: a key is present exactly when some line carries
      its marker, and its value is read from the last such line. */
  lemma {:induction false} LastOccurrenceWins(lines: seq<string>, parse: Parse, k: Key)
    requires ExtractData(lines, parse).Success?
    ensures k in ExtractData(lines, parse).value <==> LastMarked(k, lines).Some?
    ensures LastMarked(k, lines).Some? ==>
      Reading(k, lines[LastMarked(k, lines).value], parse) == Success(ExtractData(lines, parse).value[k])
    decreases |lines|
  {
    if |lines| > 0 {
      var n := |lines| - 1;
      var before := lines[..n];
      assert ExtractData(before, parse).Success?;
      var m := ExtractData(before, parse).value;
      var r := ScanLine(m, lines[n], parse);
      assert r.Success?;
      assert ExtractData(lines, parse) == Success(r.value);
      LastOccurrenceWins(before, parse, k);
      if Marks(k, lines[n]) {
        assert LastMarked(k, lines) == Some(n);
      } else {
        assert LastMarked(k, lines) == LastMarked(k, before);
        var last := LastMarked(k, before);
        if last.Some? {
          assert before[last.value] == lines[last.value];
        }
      }
    }
  }

  /** A key is in the result exactly when some line carries its marker. */
  lemma KeyPresentIffMarked(lines: seq<string>, parse: Parse, k: Key)
    requires ExtractData(lines, parse).Success?
    ensures k in ExtractData(lines, parse).value <==> exists i :: 0 <= i < |lines| && Marks(k, lines[i])
  {
    LastOccurrenceWins(lines, parse, k);
    var last := LastMarked(k, lines);
    if last.Some? {
      assert Marks(k, lines[last.value]);
    }
  }

  /** Appending a line that reads cleanly and carries the marker of `k`
      keeps extraction successful and makes that line the source of `k`'s
      value, whatever came before. */
  lemma LaterMatchOverwrites(lines: seq<string>, line: string, parse: Parse, k: Key)
    requires ExtractData(lines, parse).Success?
    requires LineReads(line, parse) && Marks(k, line)
    ensures ExtractData(lines + [line], parse).Success?
    ensures Reading(k, line, parse) == Success(ExtractData(lines + [line], parse).value[k])
  {
  }

  /** The values of `keys` in order, shown with `show` (Python's `str` on a
      float); a key missing from `data` is the `KeyError`, the first missing
      one in order. */
  function Shown(data: Energies, keys: seq<Key>, show: real -> string): (r: Result<seq<string>, Key>)
    ensures r.Success? <==> forall k :: k in keys ==> k in data
    ensures r.Success? ==> |r.value| == |keys|
    ensures r.Success? ==> forall i :: 0 <= i < |keys| ==> r.value[i] == show(data[keys[i]])
    ensures r.Failure? ==> r.error !in data
    ensures r.Failure? ==> exists j :: 0 <= j < |keys| && keys[j] == r.error && forall i :: 0 <= i < j ==> keys[i] in data
    decreases |keys|
  {
    if |keys| == 0 then Success([])
    else if keys[0] !in data then
      Failure(keys[0])
    else
      match Shown(data, keys[1..], show)
      case Failure(k) =>
        assert forall i :: 1 <= i < |keys| ==> keys[i] == keys[1..][i - 1];
        Failure(k)
      case Success(rest) =>
        Success([show(data[keys[0]])] + rest)
  }

  /** `print_energies` without the printing: the name of the log without
      its extension, then the five values, tab-joined. */
  function PrintEnergies(data: Energies, filename: string, show: real -> string): (r: Result<string, Key>)
    ensures r.Success? <==> forall k :: k in data
    ensures r.Failure? ==> r.error !in data
    ensures r.Failure? ==> forall k :: KeyIndex(k) < KeyIndex(r.error) ==> k in data
  {
    forall k: Key ensures k in AllKeys {
      AllKeysComplete(k);
    }
    match Shown(data, AllKeys, show)
    case Failure(k) => Failure(k)
    case Success(values) => Success(Join("\t", [Stem(filename)] + values))
  }

  /** `print_energies_short` without the printing: the name, then the SCF
      energy, enthalpy and Gibbs free energy corrections, tab-joined. */
  function PrintEnergiesShort(data: Energies, filename: string, show: real -> string): (r: Result<string, Key>)
    ensures r.Success? <==> ScfEnergy in data && Enthalpy in data && GibbsEnergy in data
    ensures r.Failure? ==> r.error !in data && r.error in {ScfEnergy, Enthalpy, GibbsEnergy}
    ensures ScfEnergy !in data ==> r == Failure(ScfEnergy)
    ensures ScfEnergy in data && Enthalpy !in data ==> r == Failure(Enthalpy)
    ensures ScfEnergy in data && Enthalpy in data && GibbsEnergy !in data ==> r == Failure(GibbsEnergy)
  {
    match Shown(data, ShortKeys, show)
    case Failure(k) => Failure(k)
    case Success(values) => Success(Join("\t", [Stem(filename)] + values))
  }

  /** The full row has six tab-separated fields: name, SCF energy, ZPVE,
      energy, enthalpy and Gibbs corrections, in that order. */
  lemma FullRowFields(data: Energies, filename: string, show: real -> string)
    requires forall k :: k in data
    requires '\t' !in Stem(filename)
    requires forall k :: '\t' !in show(data[k])
    ensures PrintEnergies(data, filename, show).Success?
    ensures SplitOn(PrintEnergies(data, filename, show).value, '\t') ==
      [Stem(filename), show(data[ScfEnergy]), show(data[Zpve]), show(data[Energy]),
       show(data[Enthalpy]), show(data[GibbsEnergy])]
  {
    var fields := [Stem(filename)] + Shown(data, AllKeys, show).value;
    assert fields == [Stem(filename), show(data[ScfEnergy]), show(data[Zpve]), show(data[Energy]),
                      show(data[Enthalpy]), show(data[GibbsEnergy])];
    SplitOnJoin(fields, '\t');
  }

  /** The short row has four tab-separated fields: name, SCF energy,
      enthalpy and Gibbs corrections, in that order. */
  lemma ShortRowFields(data: Energies, filename: string, show: real -> string)
    requires ScfEnergy in data && Enthalpy in data && GibbsEnergy in data
    requires '\t' !in Stem(filename)
    requires forall k :: k in data ==> '\t' !in show(data[k])
    ensures PrintEnergiesShort(data, filename, show).Success?
    ensures SplitOn(PrintEnergiesShort(data, filename, show).value, '\t') ==
      [Stem(filename), show(data[ScfEnergy]), show(data[Enthalpy]), show(data[GibbsEnergy])]
  {
    var fields := [Stem(filename)] + Shown(data, ShortKeys, show).value;
    assert fields == [Stem(filename), show(data[ScfEnergy]), show(data[Enthalpy]), show(data[GibbsEnergy])];
    SplitOnJoin(fields, '\t');
  }

  /** The short row neither needs nor shows the ZPVE and thermal energy
      corrections: removing them changes nothing. */
  lemma ShortRowIgnoresOptional(data: Energies, filename: string, show: real -> string)
    ensures PrintEnergiesShort(data, filename, show) == PrintEnergiesShort(data - {Zpve, Energy}, filename, show)
  {
    var small := data - {Zpve, Energy};
    var a := Shown(data, ShortKeys, show);
    var b := Shown(small, ShortKeys, show);
    if a.Success? {
      assert b.Success?;
      assert a.value == b.value;
    }
  }

  /** Why a log produced no row: `extract_data` raised, or the renderer hit
      a missing key. */
  datatype Cause = Unreadable(ExtractError) | MissingKey(Key)

  /** The row printed for one log, in full or short layout. */
  function FileRow(file: string, full: bool, read: string -> seq<string>, parse: Parse, show: real -> string): Result<string, Cause> {
    match ExtractData(read(file), parse)
    case Failure(e) => Failure(Unreadable(e))
    case Success(data) =>
      match (if full then PrintEnergies(data, file, show) else PrintEnergiesShort(data, file, show))
      case Failure(k) => Failure(MissingKey(k))
      case Success(row) => Success(row)
  }

  /** The outcome of every log taken on its own. */
  function Outcomes(files: seq<string>, full: bool, read: string -> seq<string>, parse: Parse, show: real -> string): (r: seq<Result<string, Cause>>)
    ensures |r| == |files|
    ensures forall i :: 0 <= i < |files| ==> r[i] == FileRow(files[i], full, read, parse, show)
    decreases |files|
  {
    if |files| == 0 then []
    else [FileRow(files[0], full, read, parse, show)] + Outcomes(files[1..], full, read, parse, show)
  }

  /** `parse_all_files`: one row per log, in input order. The source catches
      nothing, so the first failing log, number `|done|`, ends the run after
      the rows of the logs before it have been printed. */
  function ParseAllFiles(files: seq<string>, full: bool, read: string -> seq<string>, parse: Parse, show: real -> string): (r: Run<string, Cause>)
    ensures |r.done| <= |files|
    ensures forall i :: 0 <= i < |r.done| ==> FileRow(files[i], full, read, parse, show) == Success(r.done[i])
    ensures r.failure.None? <==> |r.done| == |files|
    ensures r.failure.Some? ==> FileRow(files[|r.done|], full, read, parse, show) == Failure(r.failure.value)
  {
    RunUntilFailure(Outcomes(files, full, read, parse, show))
  }
}
