/** create_uv_plot.py: read the excited states of each parsed log, write
    them as a two-column table of wavelength and oscillator strength, and
    write a gnuplot script that plots the spectrum. */
module UvPlot {
  import opened Results
  import opened Text
  import opened Paths
  import opened CcData

  // ---------------------------------------------------------------------
  // Transitions

  /** One excitation: its energy in cm⁻¹ and its oscillator strength. */
  datatype Transition = Transition(energy: real, strength: real)

  /** `zip(energies, strengths)`: pairs in order, as many as the shorter
      list has. */
  function Zip(energies: seq<real>, strengths: seq<real>): (r: seq<Transition>)
    ensures |r| == Min(|energies|, |strengths|)
    ensures forall i :: 0 <= i < |r| ==> r[i] == Transition(energies[i], strengths[i])
    decreases |energies|
  {
    if |energies| == 0 || |strengths| == 0 then []
    else [Transition(energies[0], strengths[0])] + Zip(energies[1..], strengths[1..])
  }

  function Energies(ts: seq<Transition>): (r: seq<real>)
    ensures |r| == |ts|
    ensures forall i :: 0 <= i < |ts| ==> r[i] == ts[i].energy
    decreases |ts|
  {
    if |ts| == 0 then [] else [ts[0].energy] + Energies(ts[1..])
  }

  function Strengths(ts: seq<Transition>): (r: seq<real>)
    ensures |r| == |ts|
    ensures forall i :: 0 <= i < |ts| ==> r[i] == ts[i].strength
    decreases |ts|
  {
    if |ts| == 0 then [] else [ts[0].strength] + Strengths(ts[1..])
  }

  /** Zipping the two columns of a transition list gives the list back. */
  lemma ZipUnzip(ts: seq<Transition>)
    ensures Zip(Energies(ts), Strengths(ts)) == ts
  {
    var z := Zip(Energies(ts), Strengths(ts));
    assert |z| == |ts|;
    forall i | 0 <= i < |ts| ensures z[i] == ts[i] {
    }
  }

  /** The columns of a zip are the two lists cut to the shorter length. */
  lemma UnzipZip(energies: seq<real>, strengths: seq<real>)
    ensures var n := Min(|energies|, |strengths|);
      Energies(Zip(energies, strengths)) == energies[..n] &&
      Strengths(Zip(energies, strengths)) == strengths[..n]
  {
  }

  /** `get_transitions`: `etenergies` is read first, then `etoscs`; a
      missing one raises `AttributeError`. */
  function GetTransitions(log: ParsedLog): (r: Result<seq<Transition>, Attribute>)
    ensures log.etenergies.None? ==> r == Failure(EtEnergiesAttr)
    ensures log.etenergies.Some? && log.etoscs.None? ==> r == Failure(EtOscsAttr)
    ensures r.Success? <==> log.etenergies.Some? && log.etoscs.Some?
    ensures r.Success? ==>
      && |r.value| == Min(|log.etenergies.value|, |log.etoscs.value|)
      && forall i :: 0 <= i < |r.value| ==>
           r.value[i].energy == log.etenergies.value[i] && r.value[i].strength == log.etoscs.value[i]
  {
    match log.etenergies
    case None => Failure(EtEnergiesAttr)
    case Some(energies) =>
      match log.etoscs
      case None => Failure(EtOscsAttr)
      case Some(strengths) => Success(Zip(energies, strengths))
  }

  // ---------------------------------------------------------------------
  // The transition table

  /** The source's `10E6`, which is 10 × 10⁶ = 10⁷, the factor from cm⁻¹ to
      nm. */
  const TenE6: real := 10000000.0

  /** `10E6 / energy`. The energies are numpy floats, so a zero energy gives
      infinity (`None`) rather than `ZeroDivisionError`. */
  function Wavelength(energy: real): (r: Option<real>)
    ensures r.None? <==> energy == 0.0
    ensures r.Some? ==> r.value * energy == TenE6
  {
    if energy == 0.0 then None else Some(TenE6 / energy)
  }

  /** The conversion is its own inverse: converting a wavelength with the
      same formula gives back the energy. */
  lemma WavelengthInverse(energy: real)
    requires energy != 0.0
    ensures Wavelength(energy).Some?
    ensures Wavelength(Wavelength(energy).value) == Some(energy)
  {
    var w := Wavelength(energy).value;
    assert w * energy == TenE6;
    assert w != 0.0;
    assert TenE6 / w == energy;
  }

  /** Higher energies give shorter wavelengths. */
  lemma WavelengthDecreasing(lo: real, hi: real)
    requires 0.0 < lo < hi
    ensures Wavelength(hi).value < Wavelength(lo).value
  {
    var a, b := Wavelength(lo).value, Wavelength(hi).value;
    assert a * lo == TenE6 && b * hi == TenE6;
    assert a > 0.0 && b > 0.0;
    assert b * lo < b * hi;
  }

  /** `'{:.2f}'.format(round(w, 2))` for one wavelength: a finite one is
      formatted by `show2`, infinity prints as "inf". */
  function WavelengthText(energy: real, show2: real -> string): string {
    match Wavelength(energy)
    case None => "inf"
    case Some(w) => show2(w)
  }

  /** One line of the table: the wavelength and the rounded strength, each
      right-justified to width 15, with nothing between them. */
  function Row(t: Transition, show2: real -> string, show4: real -> string): (r: string)
    ensures |r| == Max(|WavelengthText(t.energy, show2)|, 15) + Max(|show4(t.strength)|, 15)
  {
    RJust(WavelengthText(t.energy, show2), 15) + RJust(show4(t.strength), 15)
  }

  /** Reading a table line back with `split()` gives the two numbers, as
      long as neither is empty or holds whitespace and the strength does not
      fill its column (otherwise it runs into the wavelength). */
  lemma RowWords(t: Transition, show2: real -> string, show4: real -> string)
    requires IsWord(WavelengthText(t.energy, show2)) && IsWord(show4(t.strength))
    requires |show4(t.strength)| < 15
    ensures Words(Row(t, show2, show4)) == [WavelengthText(t.energy, show2), show4(t.strength)]
  {
    var a, b := RJust(WavelengthText(t.energy, show2), 15), RJust(show4(t.strength), 15);
    WordsRJust(WavelengthText(t.energy, show2), 15);
    WordsRJust(show4(t.strength), 15);
    assert b[0] == ' ';
    WordsAppend(a, b);
  }

  /** `format_transitions`: one line per transition, in order. */
  function FormatTransitions(ts: seq<Transition>, show2: real -> string, show4: real -> string): (r: seq<string>)
    ensures |r| == |ts|
    ensures forall i :: 0 <= i < |ts| ==> r[i] == Row(ts[i], show2, show4)
    decreases |ts|
  {
    if |ts| == 0 then [] else [Row(ts[0], show2, show4)] + FormatTransitions(ts[1..], show2, show4)
  }

  /** The first line of the table, without its newline. */
  const DatTitle: string := "Wavelength (nm)   Osc Strength"

  /** `write_transitions` without the file write: `<stem>.dat` holding the
      title line, then the rows joined with "\n" and no final newline. */
  function WriteTransitions(rows: seq<string>, filename: string): (r: OutputFile)
    ensures r.name == Stem(filename) + ".dat"
    ensures |r.content| > |DatTitle| && r.content[..|DatTitle| + 1] == DatTitle + "\n"
  {
    OutputFile(Stem(filename) + ".dat", DatTitle + "\n" + Join("\n", rows))
  }

  /** The lines of the table file: the title, then one per row; a log
      without transitions leaves the title and an empty last line. */
  lemma {:induction false} DatLines(rows: seq<string>, filename: string)
    requires forall i :: 0 <= i < |rows| ==> '\n' !in rows[i]
    ensures SplitOn(WriteTransitions(rows, filename).content, '\n') ==
      [DatTitle] + (if |rows| == 0 then [""] else rows)
  {
    var body := Join("\n", rows);
    assert DatTitle + "\n" + body == DatTitle + ['\n'] + body;
    assert '\n' !in DatTitle;
    SplitOnCons(DatTitle, '\n', body);
    if |rows| == 0 {
      assert body == "";
    } else {
      SplitOnJoin(rows, '\n');
    }
  }

  /** Reading the table back: line `i + 1` of the file splits into the
      wavelength and the strength of transition `i`. */
  lemma DatReadBack(ts: seq<Transition>, show2: real -> string, show4: real -> string, filename: string, i: nat)
    requires i < |ts|
    requires forall k :: 0 <= k < |ts| ==>
      IsWord(WavelengthText(ts[k].energy, show2)) && IsWord(show4(ts[k].strength)) && |show4(ts[k].strength)| < 15
    ensures var lines := SplitOn(WriteTransitions(FormatTransitions(ts, show2, show4), filename).content, '\n');
      i + 1 < |lines| &&
      Words(lines[i + 1]) == [WavelengthText(ts[i].energy, show2), show4(ts[i].strength)]
  {
    var rows := FormatTransitions(ts, show2, show4);
    forall k | 0 <= k < |rows| ensures '\n' !in rows[k] {
      RowHasNoNewline(ts[k], show2, show4);
    }
    DatLines(rows, filename);
    var lines := SplitOn(WriteTransitions(rows, filename).content, '\n');
    assert lines == [DatTitle] + rows;
    assert lines[i + 1] == Row(ts[i], show2, show4);
    RowWords(ts[i], show2, show4);
  }

  /** A row made of two words holds no newline. */
  lemma RowHasNoNewline(t: Transition, show2: real -> string, show4: real -> string)
    requires IsWord(WavelengthText(t.energy, show2)) && IsWord(show4(t.strength))
    ensures '\n' !in Row(t, show2, show4)
  {
    var a, b := WavelengthText(t.energy, show2), show4(t.strength);
    var r := Row(t, show2, show4);
    forall k | 0 <= k < |r| ensures r[k] != '\n' {
      var ra := RJust(a, 15);
      if k < |ra| {
        if k >= |ra| - |a| {
          assert ra[k] == a[k - (|ra| - |a|)];
        }
      } else {
        var rb := RJust(b, 15);
        assert r[k] == rb[k - |ra|];
        if k - |ra| >= |rb| - |b| {
          assert rb[k - |ra|] == b[k - |ra| - (|rb| - |b|)];
        }
      }
    }
  }

  // ---------------------------------------------------------------------
  // The gnuplot script

  /** The options the script reads: `-s` (sigma, unused by the script) and
      `-w` (the wavelength window, as given). */
  datatype PlotParameters = PlotParameters(sigma: real, window: string)

  /** The list `write_gnuplot` hands to `writelines`, for a log named
      `basename` plus an extension. */
  function GnuplotScript(basename: string, window: string): seq<string> {
    [ "set terminal png\n",
      "set encoding utf8\n",
      "set output \"" + basename + ".png\"\n",
      "\n",
      "set xrange [" + window + "]\n",
      "set yrange [0:1]\n",
      "set style line 1 linecolor rgb '#0060ad' linetype 1 linewidth 2\n",
      "Band(nu,nu_i,sigma,osc_str) = 1.3062974 * 10**8",
      " * osc_str / sigma * exp( -( (nu - nu_i)/sigma) )",
      "" ]
  }

  /** `write_gnuplot` without the file write: `<stem>.plt` holding eight
      lines joined with newlines and no final newline; the last line is the
      `Band` definition, written as two fragments. */
  function WriteGnuplot(transitions: seq<Transition>, params: PlotParameters, filename: string): (r: OutputFile)
    ensures r.name == Stem(filename) + ".plt"
    ensures r.content == Join("\n",
      [ "set terminal png",
        "set encoding utf8",
        "set output \"" + Stem(filename) + ".png\"",
        "",
        "set xrange [" + params.window + "]",
        "set yrange [0:1]",
        "set style line 1 linecolor rgb '#0060ad' linetype 1 linewidth 2",
        "Band(nu,nu_i,sigma,osc_str) = 1.3062974 * 10**8" + " * osc_str / sigma * exp( -( (nu - nu_i)/sigma) )" ])
  {
    GnuplotLines(Stem(filename), params.window);
    OutputFile(Stem(filename) + ".plt", Concat(GnuplotScript(Stem(filename), params.window)))
  }

  /** The script neither lists the transitions nor uses sigma: only the file
      name and the window reach it. */
  lemma GnuplotIgnoresTransitions(t1: seq<Transition>, t2: seq<Transition>, p1: PlotParameters, p2: PlotParameters, filename: string)
    requires p1.window == p2.window
    ensures WriteGnuplot(t1, p1, filename) == WriteGnuplot(t2, p2, filename)
  {
  }

  lemma ConcatCons(a: string, rest: seq<string>)
    ensures Concat([a] + rest) == a + Concat(rest)
  {
    assert ([a] + rest)[1..] == rest;
  }

  lemma {:induction false} ConcatAppend(a: seq<string>, b: seq<string>)
    ensures Concat(a + b) == Concat(a) + Concat(b)
    decreases |a|
  {
    if |a| == 0 {
      assert a + b == b;
    } else {
      assert a + b == [a[0]] + (a[1..] + b);
      ConcatCons(a[0], a[1..] + b);
      ConcatAppend(a[1..], b);
    }
  }

  /** Each line with its newline, as a list for `writelines`. */
  function Terminated(lines: seq<string>): (r: seq<string>)
    ensures |r| == |lines|
    ensures forall i :: 0 <= i < |lines| ==> r[i] == lines[i] + "\n"
    decreases |lines|
  {
    if |lines| == 0 then [] else [lines[0] + "\n"] + Terminated(lines[1..])
  }

  /** Writing newline-terminated lines and then a last unterminated one
      gives the lines joined with newlines. */
  lemma {:induction false} ConcatTerminated(lines: seq<string>, last: string)
    ensures Concat(Terminated(lines) + [last]) == Join("\n", lines + [last])
    decreases |lines|
  {
    if |lines| == 0 {
      assert Terminated(lines) + [last] == [last];
      assert lines + [last] == [last];
      ConcatCons(last, []);
    } else {
      var rest := Terminated(lines[1..]) + [last];
      assert Terminated(lines) + [last] == [lines[0] + "\n"] + rest;
      ConcatCons(lines[0] + "\n", rest);
      ConcatTerminated(lines[1..], last);
      assert (lines + [last])[1..] == lines[1..] + [last];
    }
  }

  /** The first seven lines of the script, without their newlines. */
  function GnuplotHead(basename: string, window: string): seq<string> {
    [ "set terminal png",
      "set encoding utf8",
      "set output \"" + basename + ".png\"",
      "",
      "set xrange [" + window + "]",
      "set yrange [0:1]",
      "set style line 1 linecolor rgb '#0060ad' linetype 1 linewidth 2" ]
  }

  lemma ScriptIsTerminatedHead(basename: string, window: string)
    ensures GnuplotScript(basename, window) ==
      Terminated(GnuplotHead(basename, window)) +
      ["Band(nu,nu_i,sigma,osc_str) = 1.3062974 * 10**8", " * osc_str / sigma * exp( -( (nu - nu_i)/sigma) )", ""]
  {
    var script, t := GnuplotScript(basename, window), Terminated(GnuplotHead(basename, window));
    assert script[0] == t[0] && script[1] == t[1] && script[2] == t[2] && script[3] == t[3];
    assert script[4] == t[4] && script[5] == t[5] && script[6] == t[6];
  }

  /** The script's text: seven newline-terminated lines, then the `Band`
      definition, whose two fragments meet on one line and which ends
      without a newline. */
  lemma GnuplotLines(basename: string, window: string)
    ensures Concat(GnuplotScript(basename, window)) == Join("\n",
      [ "set terminal png",
        "set encoding utf8",
        "set output \"" + basename + ".png\"",
        "",
        "set xrange [" + window + "]",
        "set yrange [0:1]",
        "set style line 1 linecolor rgb '#0060ad' linetype 1 linewidth 2",
        "Band(nu,nu_i,sigma,osc_str) = 1.3062974 * 10**8" + " * osc_str / sigma * exp( -( (nu - nu_i)/sigma) )" ])
  {
    var lines := GnuplotHead(basename, window);
    var b1 := "Band(nu,nu_i,sigma,osc_str) = 1.3062974 * 10**8";
    var b2 := " * osc_str / sigma * exp( -( (nu - nu_i)/sigma) )";
    var t := Terminated(lines);
    ScriptIsTerminatedHead(basename, window);
    ConcatAppend(t, [b1, b2, ""]);
    ConcatThree(b1, b2, "");
    assert b2 + "" == b2;
    ConcatAppend(t, [b1 + b2]);
    ConcatCons(b1 + b2, []);
    ConcatTerminated(lines, b1 + b2);
    assert Concat(GnuplotScript(basename, window)) == Join("\n", lines + [b1 + b2]);
    assert lines + [b1 + b2] == [lines[0], lines[1], lines[2], lines[3], lines[4], lines[5], lines[6], b1 + b2];
  }

  /** The last three fragments concatenate to the `Band` line. */
  lemma ConcatThree(a: string, b: string, c: string)
    ensures Concat([a, b, c]) == a + (b + c)
  {
    assert [a, b, c][1..] == [b, c];
    assert [b, c][1..] == [c];
    assert [c][1..] == [];
    assert Concat([c]) == c + "";
  }

  /** The three output names share the stem of the log name. */
  lemma OutputNamesShareStem(rows: seq<string>, transitions: seq<Transition>, params: PlotParameters, filename: string)
    requires HasStem(Stem(filename))
    ensures Stem(WriteTransitions(rows, filename).name) == Stem(filename)
    ensures Stem(WriteGnuplot(transitions, params, filename).name) == Stem(filename)
  {
    var stem := Stem(filename);
    SplitExtAppend(stem, "dat");
    assert stem + "." + "dat" == stem + ".dat";
    SplitExtAppend(stem, "plt");
    assert stem + "." + "plt" == stem + ".plt";
  }

  // ---------------------------------------------------------------------
  // The main loop

  /** The two files written for one log. */
  datatype LogOutput = LogOutput(table: OutputFile, script: OutputFile)

  /** One pass of the loop of `main`: the transitions, then the table and
      the script built from them. */
  function ProcessLog(name: string, log: ParsedLog, params: PlotParameters,
                      show2: real -> string, show4: real -> string): (r: Result<LogOutput, Attribute>)
    ensures r.Success? <==> GetTransitions(log).Success?
    ensures r.Failure? ==> GetTransitions(log) == Failure(r.error)
  {
    match GetTransitions(log)
    case Failure(e) => Failure(e)
    case Success(ts) =>
      Success(LogOutput(WriteTransitions(FormatTransitions(ts, show2, show4), name), WriteGnuplot(ts, params, name)))
  }

  /** The outcome of every log taken on its own. */
  function LogOutcomes(names: seq<string>, logs: seq<ParsedLog>, params: PlotParameters,
                       show2: real -> string, show4: real -> string): (r: seq<Result<LogOutput, Attribute>>)
    requires |names| == |logs|
    ensures |r| == |logs|
    ensures forall i :: 0 <= i < |logs| ==> r[i] == ProcessLog(names[i], logs[i], params, show2, show4)
    decreases |logs|
  {
    if |logs| == 0 then []
    else [ProcessLog(names[0], logs[0], params, show2, show4)] + LogOutcomes(names[1..], logs[1..], params, show2, show4)
  }

  /** The loop of `main` over logs `names[i]`/`logs[i]`: for each log the
      table then the script; the first log without transitions, number
      `|done|`, ends the run, since nothing catches the `AttributeError`. */
  function UvMain(names: seq<string>, logs: seq<ParsedLog>, params: PlotParameters,
                  show2: real -> string, show4: real -> string): (r: Run<LogOutput, Attribute>)
    requires |names| == |logs|
    ensures |r.done| <= |logs|
    ensures r.failure.None? <==> |r.done| == |logs|
    ensures r.failure.Some? ==> GetTransitions(logs[|r.done|]) == Failure(r.failure.value)
    ensures forall i :: 0 <= i < |r.done| ==> ProcessLog(names[i], logs[i], params, show2, show4) == Success(r.done[i])
  {
    RunUntilFailure(LogOutcomes(names, logs, params, show2, show4))
  }

  /** What `main` wrote for log `i` when it got that far: the table of the
      log's transitions and the script, both named after the log. */
  lemma UvMainWrites(names: seq<string>, logs: seq<ParsedLog>, params: PlotParameters,
                     show2: real -> string, show4: real -> string, i: nat)
    requires |names| == |logs|
    requires i < |UvMain(names, logs, params, show2, show4).done|
    ensures GetTransitions(logs[i]).Success?
    ensures var out := UvMain(names, logs, params, show2, show4).done[i];
      && out.table == WriteTransitions(FormatTransitions(GetTransitions(logs[i]).value, show2, show4), names[i])
      && out.script == WriteGnuplot(GetTransitions(logs[i]).value, params, names[i])
  {
  }
}
