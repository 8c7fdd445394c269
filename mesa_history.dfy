/**
 * The reader of a MESA `history.data` table: find the header line (the first
 * line containing `model_number`), take its whitespace-separated tokens as
 * column names, keep every later line whose tokens all convert to numbers and
 * whose token count matches the header, and transpose the kept rows into one
 * value sequence per column name.
 *
 * Numeric conversion (Python's `float`) is a parameter `parseNum` returning
 * `None` where `float` would raise `ValueError`; `V` is the type of numbers.
 */
module MesaHistory {
  import opened Wrappers
  import opened PyText

  /** The substring that identifies the header line. */
  const Marker: string := "model_number"

  lemma MarkerIsOneWord()
    ensures Marker != [] && NoSpace(Marker)
  {
  }

  predicate IsHeader(line: string)
  {
    Contains(line, Marker)
  }

  /** `line.strip().split()`. */
  function Tokens(line: string): seq<string>
  {
    Split(Strip(line))
  }

  /** Why the reader returned `None`. */
  datatype ReadError = FileNotFound | NoHeader | NoValidData

  /** What the reader returns on success: the name-to-column dictionary and the header names. */
  datatype Table<V> = Table(columns: map<string, seq<V>>, names: seq<string>)

  /** How the row loop treats one line after the header. */
  datatype LineKind<V> =
    | Blank               // empty after stripping: skipped
    | Unparsable          // some token fails to convert: skipped with a warning
    | WrongWidth          // converts, but the token count differs from the header's: skipped silently
    | Row(values: seq<V>) // kept

  // ---------------------------------------------------------------------
  // Header search
  // ---------------------------------------------------------------------

  /** The index of the first line containing the marker, if any. */
  function FirstHeader(lines: seq<string>): (r: Option<nat>)
    ensures r.None? <==> forall k :: 0 <= k < |lines| ==> !IsHeader(lines[k])
    ensures r.Some? ==>
      r.value < |lines| && IsHeader(lines[r.value]) &&
      forall k :: 0 <= k < r.value ==> !IsHeader(lines[k])
  {
    if lines == [] then None
    else if IsHeader(lines[0]) then Some(0)
    else match FirstHeader(lines[1..])
      case None => None
      case Some(k) => Some(k + 1)
  }

  /** The scan for the header line: stops at the first line containing the marker. */
  method FindHeader(lines: seq<string>) returns (title: Option<nat>)
    ensures title.None? <==> forall k :: 0 <= k < |lines| ==> !IsHeader(lines[k])
    ensures title.Some? ==>
      title.value < |lines| && IsHeader(lines[title.value]) &&
      forall k :: 0 <= k < title.value ==> !IsHeader(lines[k])
  {
    title := None;
    var i := 0;
    while i < |lines|
      invariant 0 <= i <= |lines|
      invariant forall k :: 0 <= k < i ==> !IsHeader(lines[k])
    {
      if Contains(lines[i], Marker) {
        title := Some(i);
        break;
      }
      i := i + 1;
    }
  }

  // ---------------------------------------------------------------------
  // One line
  // ---------------------------------------------------------------------

  /** `[float(x) for x in parts]`: every token converted, or `None` if one fails. */
  function ParseRow<V>(parts: seq<string>, parseNum: string -> Option<V>): Option<seq<V>>
  {
    if parts == [] then Some([])
    else match parseNum(parts[0])
      case None => None
      case Some(v) =>
        match ParseRow(parts[1..], parseNum)
        case None => None
        case Some(vs) => Some([v] + vs)
  }

  /**
   * Conversion succeeds exactly when every token converts, and then yields
   * the converted tokens, one value per token and in order.
   */
  lemma {:induction false} ParseRowSpec<V>(parts: seq<string>, parseNum: string -> Option<V>)
    ensures ParseRow(parts, parseNum).Some? <==> forall i :: 0 <= i < |parts| ==> parseNum(parts[i]).Some?
    ensures ParseRow(parts, parseNum).Some? ==>
      var vs := ParseRow(parts, parseNum).value;
      |vs| == |parts| && forall i :: 0 <= i < |parts| ==> parseNum(parts[i]) == Some(vs[i])
    decreases |parts|
  {
    if parts != [] {
      ParseRowSpec(parts[1..], parseNum);
      assert forall i :: 1 <= i < |parts| ==> parts[i] == parts[1..][i - 1];
    }
  }

  /** What the row loop does with one line, given the header's column count. */
  function Classify<V>(line: string, width: nat, parseNum: string -> Option<V>): LineKind<V>
  {
    var s := Strip(line);
    if s == [] then Blank
    else match ParseRow(Split(s), parseNum)
      case None => Unparsable
      case Some(vs) => if |vs| == width then Row(vs) else WrongWidth
  }

  /**
   * The acceptance rule for one line: blank lines are the all-whitespace ones;
   * a non-blank line is kept exactly when every token converts and there are
   * as many tokens as header names, and the kept values are the conversions of
   * the tokens, position by position.
   */
  lemma ClassifySpec<V>(line: string, width: nat, parseNum: string -> Option<V>)
    ensures Classify(line, width, parseNum).Blank? <==> AllSpace(line)
    ensures Classify(line, width, parseNum).Unparsable? <==>
      !AllSpace(line) && exists i :: 0 <= i < |Tokens(line)| && parseNum(Tokens(line)[i]).None?
    ensures Classify(line, width, parseNum).WrongWidth? <==>
      !AllSpace(line) && (forall i :: 0 <= i < |Tokens(line)| ==> parseNum(Tokens(line)[i]).Some?) &&
      |Tokens(line)| != width
    ensures Classify(line, width, parseNum).Row? <==>
      !AllSpace(line) && (forall i :: 0 <= i < |Tokens(line)| ==> parseNum(Tokens(line)[i]).Some?) &&
      |Tokens(line)| == width
    ensures Classify(line, width, parseNum).Row? ==>
      var vs := Classify(line, width, parseNum).values;
      |vs| == width && forall i :: 0 <= i < width ==> parseNum(Tokens(line)[i]) == Some(vs[i])
  {
    StripEmptyIffAllSpace(line);
    var ts := Tokens(line);
    ParseRowSpec(ts, parseNum);
    if Strip(line) != [] && ParseRow(ts, parseNum).None? {
      var i :| 0 <= i < |ts| && parseNum(ts[i]).None?;
    }
  }

  // ---------------------------------------------------------------------
  // The lines after the header
  // ---------------------------------------------------------------------

  /** The classification of every line, in order. */
  function Kinds<V>(lines: seq<string>, width: nat, parseNum: string -> Option<V>): (ks: seq<LineKind<V>>)
  {
    seq(|lines|, k requires 0 <= k < |lines| => Classify(lines[k], width, parseNum))
  }

  /** The values of the accepted lines, in order. */
  function RowsOf<V>(ks: seq<LineKind<V>>): seq<seq<V>>
  {
    if ks == [] then []
    else
      var prev := RowsOf(ks[..|ks| - 1]);
      match ks[|ks| - 1]
      case Row(vs) => prev + [vs]
      case _ => prev
  }

  /** The positions (0-based) of the accepted lines, in order. */
  function RowIndices<V>(ks: seq<LineKind<V>>): seq<nat>
  {
    if ks == [] then []
    else
      var prev := RowIndices(ks[..|ks| - 1]);
      if ks[|ks| - 1].Row? then prev + [|ks| - 1] else prev
  }

  /** The numbers the warning messages carry: `i + 1` for each line `i` with a token that fails to convert. */
  function WarningsOf<V>(ks: seq<LineKind<V>>): seq<nat>
  {
    if ks == [] then []
    else
      var prev := WarningsOf(ks[..|ks| - 1]);
      if ks[|ks| - 1].Unparsable? then prev + [|ks|] else prev
  }

  function NonBlankCount<V>(ks: seq<LineKind<V>>): nat
  {
    if ks == [] then 0
    else NonBlankCount(ks[..|ks| - 1]) + if ks[|ks| - 1].Blank? then 0 else 1
  }

  function WrongWidthCount<V>(ks: seq<LineKind<V>>): nat
  {
    if ks == [] then 0
    else WrongWidthCount(ks[..|ks| - 1]) + if ks[|ks| - 1].WrongWidth? then 1 else 0
  }

  ghost predicate Rectangular<V>(rows: seq<seq<V>>, width: nat)
  {
    forall j :: 0 <= j < |rows| ==> |rows[j]| == width
  }

  ghost predicate RowsHaveWidth<V>(ks: seq<LineKind<V>>, width: nat)
  {
    forall k :: 0 <= k < |ks| && ks[k].Row? ==> |ks[k].values| == width
  }

  ghost predicate StrictlyIncreasing(s: seq<nat>)
  {
    forall a, b :: 0 <= a < b < |s| ==> s[a] < s[b]
  }

  /** Every kept line has as many values as the header has names. */
  lemma KindsHaveWidth<V>(lines: seq<string>, width: nat, parseNum: string -> Option<V>)
    ensures RowsHaveWidth(Kinds(lines, width, parseNum), width)
  {
  }

  lemma {:induction false} RowsRectangular<V>(ks: seq<LineKind<V>>, width: nat)
    requires RowsHaveWidth(ks, width)
    ensures Rectangular(RowsOf(ks), width)
    decreases |ks|
  {
    if ks != [] {
      RowsRectangular(ks[..|ks| - 1], width);
    }
  }

  /**
   * The accepted rows are exactly the values of the lines classified `Row`,
   * each once and in file order.
   */
  lemma {:induction false} RowIndicesSpec<V>(ks: seq<LineKind<V>>)
    ensures var idx := RowIndices(ks);
      && StrictlyIncreasing(idx)
      && (forall j :: 0 <= j < |idx| ==> idx[j] < |ks|)
      && (forall k :: 0 <= k < |ks| ==> (k in idx <==> ks[k].Row?))
    ensures var idx := RowIndices(ks);
      && |idx| == |RowsOf(ks)|
      && forall j :: 0 <= j < |idx| ==> ks[idx[j]] == Row(RowsOf(ks)[j])
    decreases |ks|
  {
    if ks != [] {
      var init := ks[..|ks| - 1];
      RowIndicesSpec(init);
      assert forall k :: 0 <= k < |init| ==> ks[k] == init[k];
    }
  }

  /** The row list stays empty exactly when no line is accepted. */
  lemma NoRowsIffNoneAccepted<V>(ks: seq<LineKind<V>>)
    ensures RowsOf(ks) == [] <==> forall k :: 0 <= k < |ks| ==> !ks[k].Row?
  {
    RowIndicesSpec(ks);
    var idx := RowIndices(ks);
    if idx != [] {
      assert idx[0] in idx;
    }
  }

  /** Warnings name exactly the lines with a token that fails to convert, 1-based and in order. */
  lemma {:induction false} WarningsSpec<V>(ks: seq<LineKind<V>>)
    ensures var w := WarningsOf(ks);
      && StrictlyIncreasing(w)
      && (forall j :: 0 <= j < |w| ==> 1 <= w[j] <= |ks|)
      && (forall k :: 0 <= k < |ks| ==> (k + 1 in w <==> ks[k].Unparsable?))
    decreases |ks|
  {
    if ks != [] {
      var init := ks[..|ks| - 1];
      WarningsSpec(init);
      assert forall k :: 0 <= k < |init| ==> ks[k] == init[k];
    }
  }

  /** Every non-blank line is kept, warned about, or dropped silently for its width: no line is lost. */
  lemma {:induction false} EveryLineAccountedFor<V>(ks: seq<LineKind<V>>)
    ensures |RowsOf(ks)| + |WarningsOf(ks)| + WrongWidthCount(ks) == NonBlankCount(ks)
    decreases |ks|
  {
    if ks != [] {
      EveryLineAccountedFor(ks[..|ks| - 1]);
    }
  }

  /**
   * The row loop: blank lines are skipped, a line with a token that fails to
   * convert records a warning, a converted line is kept when its width matches
   * the header's; no line stops the scan.
   */
  method CollectRows<V>(dataLines: seq<string>, width: nat, parseNum: string -> Option<V>)
    returns (rows: seq<seq<V>>, warnings: seq<nat>)
    ensures rows == RowsOf(Kinds(dataLines, width, parseNum))
    ensures warnings == WarningsOf(Kinds(dataLines, width, parseNum))
  {
    ghost var ks := Kinds(dataLines, width, parseNum);
    rows, warnings := [], [];
    for i := 0 to |dataLines|
      invariant rows == RowsOf(ks[..i])
      invariant warnings == WarningsOf(ks[..i])
    {
      assert ks[..i + 1][..i] == ks[..i];
      var line := Strip(dataLines[i]);
      if line == [] {
        assert ks[i] == Blank;
        continue;
      }
      var parts := Split(line);
      match ParseRow(parts, parseNum) {
        case None =>
          assert ks[i] == Unparsable;
          warnings := warnings + [i + 1];
        case Some(values) =>
          if |values| == width {
            assert ks[i] == Row(values);
            rows := rows + [values];
          } else {
            assert ks[i] == WrongWidth;
          }
      }
    }
    assert ks[..|dataLines|] == ks;
  }

  // ---------------------------------------------------------------------
  // Transposition into the dictionary
  // ---------------------------------------------------------------------

  /** `data_array[:, i]`: entry `i` of every row. */
  function Column<V>(rows: seq<seq<V>>, i: nat): (c: seq<V>)
    requires forall j :: 0 <= j < |rows| ==> i < |rows[j]|
  {
    seq(|rows|, j requires 0 <= j < |rows| => rows[j][i])
  }

  /** The dictionary after the fill loop has handled the first `k` names. */
  function Columns<V>(names: seq<string>, rows: seq<seq<V>>, k: nat): (d: map<string, seq<V>>)
    requires k <= |names| && Rectangular(rows, |names|)
    ensures d.Keys == set i | 0 <= i < k :: names[i]
  {
    if k == 0 then map[]
    else Columns(names, rows, k - 1)[names[k - 1] := Column(rows, k - 1)]
  }

  /** Under a name, the dictionary holds the column of that name's last position. */
  lemma {:induction false} ColumnsLastWins<V>(names: seq<string>, rows: seq<seq<V>>, k: nat, i: nat)
    requires k <= |names| && Rectangular(rows, |names|)
    requires i < k
    requires forall l :: i < l < k ==> names[l] != names[i]
    ensures names[i] in Columns(names, rows, k)
    ensures Columns(names, rows, k)[names[i]] == Column(rows, i)
    decreases k
  {
    if i < k - 1 {
      ColumnsLastWins(names, rows, k - 1, i);
    }
  }

  /** Every column in the dictionary has one entry per row. */
  lemma {:induction false} ColumnsLengths<V>(names: seq<string>, rows: seq<seq<V>>, k: nat)
    requires k <= |names| && Rectangular(rows, |names|)
    ensures forall c :: c in Columns(names, rows, k) ==> |Columns(names, rows, k)[c]| == |rows|
    decreases k
  {
    if k > 0 {
      ColumnsLengths(names, rows, k - 1);
    }
  }

  /** A sequence has no more distinct elements than positions. */
  lemma {:induction false} DistinctAtMostLength(names: seq<string>, k: nat)
    requires k <= |names|
    ensures |set i | 0 <= i < k :: names[i]| <= k
    decreases k
  {
    if k > 0 {
      DistinctAtMostLength(names, k - 1);
      var prev := set i | 0 <= i < k - 1 :: names[i];
      assert (set i | 0 <= i < k :: names[i]) == prev + {names[k - 1]};
    }
  }

  /** The last position holding the same name as position `i`. */
  function LastIndex(names: seq<string>, i: nat): (l: nat)
    requires i < |names|
    ensures i <= l < |names| && names[l] == names[i]
    ensures forall m :: l < m < |names| ==> names[m] != names[i]
    decreases |names| - i
  {
    if forall m :: i < m < |names| ==> names[m] != names[i] then i
    else
      var m :| i < m < |names| && names[m] == names[i];
      LastIndexSame(names, i, m);
      LastIndex(names, m)
  }

  lemma LastIndexSame(names: seq<string>, i: nat, m: nat)
    requires i < m < |names| && names[m] == names[i]
    ensures forall l :: m < l < |names| ==> (names[l] != names[m] <==> names[l] != names[i])
  {
  }

  /** The fill loop `for i, col_name in enumerate(column_names): data_dict[col_name] = data_array[:, i]`. */
  method BuildColumns<V>(names: seq<string>, rows: seq<seq<V>>) returns (d: map<string, seq<V>>)
    requires Rectangular(rows, |names|)
    ensures d == Columns(names, rows, |names|)
  {
    d := map[];
    for i := 0 to |names|
      invariant d == Columns(names, rows, i)
    {
      d := d[names[i] := Column(rows, i)];
    }
  }

  // ---------------------------------------------------------------------
  // The reader
  // ---------------------------------------------------------------------

  /** What `read_mesa_fixed_width` returns for an existing file with these lines. */
  function Read<V>(lines: seq<string>, parseNum: string -> Option<V>): Result<Table<V>, ReadError>
  {
    match FirstHeader(lines)
    case None => Failure(NoHeader)
    case Some(h) =>
      var names := Tokens(lines[h]);
      var ks := Kinds(lines[h + 1..], |names|, parseNum);
      var rows := RowsOf(ks);
      if rows == [] then Failure(NoValidData)
      else
        KindsHaveWidth(lines[h + 1..], |names|, parseNum);
        RowsRectangular(ks, |names|);
        Success(Table(Columns(names, rows, |names|), names))
  }

  /** The warnings the reader emits for an existing file with these lines. */
  function ReadWarnings<V>(lines: seq<string>, parseNum: string -> Option<V>): seq<nat>
  {
    match FirstHeader(lines)
    case None => []
    case Some(h) => WarningsOf(Kinds(lines[h + 1..], |Tokens(lines[h])|, parseNum))
  }

  /** `read_mesa_fixed_width`, over the file's lines; `fileExists` stands for `os.path.exists`. */
  method ReadMesaFixedWidth<V>(fileExists: bool, lines: seq<string>, parseNum: string -> Option<V>)
    returns (r: Result<Table<V>, ReadError>, warnings: seq<nat>)
    ensures !fileExists ==> r == Failure(FileNotFound) && warnings == []
    ensures fileExists ==> r == Read(lines, parseNum) && warnings == ReadWarnings(lines, parseNum)
  {
    if !fileExists {
      return Failure(FileNotFound), [];
    }
    var title := FindHeader(lines);
    if title.None? {
      return Failure(NoHeader), [];
    }
    var h := title.value;
    assert FirstHeader(lines) == title;
    var names := Split(Strip(lines[h]));
    var dataLines := lines[h + 1..];
    var rows;
    rows, warnings := CollectRows(dataLines, |names|, parseNum);
    if |rows| == 0 {
      return Failure(NoValidData), warnings;
    }
    KindsHaveWidth(dataLines, |names|, parseNum);
    RowsRectangular(Kinds(dataLines, |names|, parseNum), |names|);
    var d := BuildColumns(names, rows);
    r := Success(Table(d, names));
  }

  // ---------------------------------------------------------------------
  // Properties of the reader
  // ---------------------------------------------------------------------

  /** Missing header fails: the reader reports `NoHeader` exactly when no line contains the marker. */
  lemma ReadNoHeader<V>(lines: seq<string>, parseNum: string -> Option<V>)
    ensures Read(lines, parseNum) == Failure(NoHeader) <==>
      forall k :: 0 <= k < |lines| ==> !IsHeader(lines[k])
  {
  }

  /**
   * With the first header at `h`: the reader fails with `NoValidData` exactly
   * when no later line is accepted, and otherwise returns the header's tokens,
   * at least one, as the column names.
   */
  lemma ReadAfterHeader<V>(lines: seq<string>, parseNum: string -> Option<V>, h: nat)
    requires h < |lines| && IsHeader(lines[h])
    requires forall k :: 0 <= k < h ==> !IsHeader(lines[k])
    ensures Read(lines, parseNum).Failure? <==>
      forall k :: h < k < |lines| ==> !Classify(lines[k], |Tokens(lines[h])|, parseNum).Row?
    ensures Read(lines, parseNum).Failure? ==> Read(lines, parseNum).error == NoValidData
    ensures Read(lines, parseNum).Success? ==>
      Read(lines, parseNum).value.names == Tokens(lines[h]) && Read(lines, parseNum).value.names != []
  {
    assert FirstHeader(lines) == Some(h);
    var width := |Tokens(lines[h])|;
    var data := lines[h + 1..];
    var ks := Kinds(data, width, parseNum);
    NoRowsIffNoneAccepted(ks);
    assert forall k :: h < k < |lines| ==> ks[k - h - 1] == Classify(lines[k], width, parseNum);
    MarkerIsOneWord();
    ContainsWordHasTokens(lines[h], Marker);
  }

  /** A successful read: the first header's tokens, and the dictionary built from the accepted rows. */
  lemma ReadSuccessShape<V>(lines: seq<string>, parseNum: string -> Option<V>, t: Table<V>)
    requires Read(lines, parseNum) == Success(t)
    ensures FirstHeader(lines).Some?
    ensures var h := FirstHeader(lines).value;
      var rows := RowsOf(Kinds(lines[h + 1..], |t.names|, parseNum));
      && t.names == Tokens(lines[h])
      && rows != []
      && Rectangular(rows, |t.names|)
      && t.columns == Columns(t.names, rows, |t.names|)
  {
    var h := FirstHeader(lines).value;
    KindsHaveWidth(lines[h + 1..], |t.names|, parseNum);
    RowsRectangular(Kinds(lines[h + 1..], |t.names|, parseNum), |t.names|);
  }

  /**
   * Transposition: under every header name `names[i]`, the dictionary holds one
   * entry per accepted row, and its `j`-th entry is the value, at that name's
   * last header position, of the `j`-th accepted row (so with distinct names,
   * value `i`).
   */
  lemma ReadTransposes<V>(lines: seq<string>, parseNum: string -> Option<V>, h: nat, t: Table<V>, i: nat)
    requires h < |lines| && IsHeader(lines[h])
    requires forall k :: 0 <= k < h ==> !IsHeader(lines[k])
    requires Read(lines, parseNum) == Success(t)
    requires i < |t.names|
    ensures var rows := RowsOf(Kinds(lines[h + 1..], |t.names|, parseNum));
      && Rectangular(rows, |t.names|)
      && t.names[i] in t.columns
      && |t.columns[t.names[i]]| == |rows|
      && forall j :: 0 <= j < |rows| ==> t.columns[t.names[i]][j] == rows[j][LastIndex(t.names, i)]
  {
    assert FirstHeader(lines) == Some(h);
    ReadSuccessShape(lines, parseNum, t);
    var rows := RowsOf(Kinds(lines[h + 1..], |t.names|, parseNum));
    var l := LastIndex(t.names, i);
    ColumnsLastWins(t.names, rows, |t.names|, l);
    var c := Column(rows, l);
    assert t.columns[t.names[i]] == c;
    assert forall j :: 0 <= j < |rows| ==> c[j] == rows[j][l];
  }

  /**
   * The acceptance rule, for line `k` after the header at `h`: it is among the
   * accepted lines exactly when it is not blank, all its tokens convert, and
   * it has as many tokens as the header.
   */
  lemma AcceptedLine<V>(lines: seq<string>, parseNum: string -> Option<V>, h: nat, k: nat)
    requires h < k < |lines|
    ensures var width := |Tokens(lines[h])|;
      var idx := RowIndices(Kinds(lines[h + 1..], width, parseNum));
      k - h - 1 in idx <==>
        && !AllSpace(lines[k])
        && (forall i :: 0 <= i < |Tokens(lines[k])| ==> parseNum(Tokens(lines[k])[i]).Some?)
        && |Tokens(lines[k])| == width
  {
    var width := |Tokens(lines[h])|;
    var ks := Kinds(lines[h + 1..], width, parseNum);
    RowIndicesSpec(ks);
    assert ks[k - h - 1] == Classify(lines[k], width, parseNum);
    ClassifySpec(lines[k], width, parseNum);
  }

  /**
   * The warnings: line `k` after the header at `h` is reported, under the
   * number `k - h` (its 1-based position among the lines after the header),
   * exactly when it is not blank and one of its tokens fails to convert.
   */
  lemma WarnedLine<V>(lines: seq<string>, parseNum: string -> Option<V>, h: nat, k: nat)
    requires h < k < |lines|
    ensures var width := |Tokens(lines[h])|;
      var w := WarningsOf(Kinds(lines[h + 1..], width, parseNum));
      k - h in w <==>
        !AllSpace(lines[k]) && exists i :: 0 <= i < |Tokens(lines[k])| && parseNum(Tokens(lines[k])[i]).None?
  {
    var width := |Tokens(lines[h])|;
    var ks := Kinds(lines[h + 1..], width, parseNum);
    WarningsSpec(ks);
    assert ks[k - h - 1] == Classify(lines[k], width, parseNum);
    ClassifySpec(lines[k], width, parseNum);
  }

  /**
   * The `j`-th accepted row comes from a line after the header whose tokens
   * all convert, and holds their values in order; rows keep file order.
   */
  lemma AcceptedRowSource<V>(lines: seq<string>, parseNum: string -> Option<V>, h: nat, j: nat)
    requires h < |lines|
    requires j < |RowsOf(Kinds(lines[h + 1..], |Tokens(lines[h])|, parseNum))|
    ensures var width := |Tokens(lines[h])|;
      var ks := Kinds(lines[h + 1..], width, parseNum);
      var idx := RowIndices(ks);
      var row := RowsOf(ks)[j];
      && |idx| == |RowsOf(ks)|
      && StrictlyIncreasing(idx)
      && h < h + 1 + idx[j] < |lines|
      && var line := lines[h + 1 + idx[j]];
         && |Tokens(line)| == width == |row|
         && forall i :: 0 <= i < width ==> parseNum(Tokens(line)[i]) == Some(row[i])
  {
    var width := |Tokens(lines[h])|;
    var ks := Kinds(lines[h + 1..], width, parseNum);
    RowIndicesSpec(ks);
    var idx := RowIndices(ks);
    assert ks[idx[j]] == Classify(lines[h + 1 + idx[j]], width, parseNum);
    ClassifySpec(lines[h + 1 + idx[j]], width, parseNum);
  }

  /**
   * The dictionary's keys are the header names, so it has at most as many
   * entries as the header has names, and all its columns have the same,
   * non-zero length.
   */
  lemma ReadKeys<V>(lines: seq<string>, parseNum: string -> Option<V>, t: Table<V>)
    requires Read(lines, parseNum) == Success(t)
    ensures t.columns.Keys == set i | 0 <= i < |t.names| :: t.names[i]
    ensures |t.columns| <= |t.names|
    ensures forall c, c' :: c in t.columns && c' in t.columns ==> |t.columns[c]| == |t.columns[c']| > 0
  {
    ReadSuccessShape(lines, parseNum, t);
    var h := FirstHeader(lines).value;
    var rows := RowsOf(Kinds(lines[h + 1..], |t.names|, parseNum));
    ColumnsLengths(t.names, rows, |t.names|);
    DistinctAtMostLength(t.names, |t.names|);
  }
}
