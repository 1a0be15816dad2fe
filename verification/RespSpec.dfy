/**
 * RESP command framing (internal/protocol/resp3/server.go, `readCommand`, `bulkString`): arrays of bulk strings and
 * inline commands, as functions from the unread input to a reply and the input left over.
 */
module RespSpec {
  import opened Core
  import opened Decimals

  const MAX_ARGS := 10000
  const MAX_ARG_LEN := 0x10_0000

  datatype Reply =
    | Args(args: seq<string>)
    | Eof
    | InvalidArrayLength
    | ExpectedBulk(at: nat)
    | InvalidBulkLength(at: nat)
    | TooManyArgs

  /** The first newline, or the length when there is none. */
  function Newline(s: string): (i: nat)
    ensures i <= |s| && (i < |s| ==> s[i] == '\n') && forall j :: 0 <= j < i ==> s[j] != '\n'
  {
    if s == "" || s[0] == '\n' then 0 else 1 + Newline(s[1..])
  }

  /** `strings.TrimRight(line, "\r\n")`. */
  function TrimRight(s: string): string {
    if s != "" && (s[|s| - 1] == '\r' || s[|s| - 1] == '\n') then TrimRight(s[..|s| - 1]) else s
  }

  /** `ReadString('\n')` then `TrimRight`: the line and what follows it; without a newline everything is consumed. */
  function ReadLine(s: string): (Option<string>, string) {
    var i := Newline(s);
    if i == |s| then (None, "") else (Some(TrimRight(s[..i + 1])), s[i + 1..])
  }

  /** One argument: its header line, then its bytes and two more that are not looked at. */
  function ReadBulk(s: string, at: nat): (Reply, string) {
    var (line, rest) := ReadLine(s);
    if line.None? then (Eof, rest)
    else if line.value == "" || line.value[0] != '$' then (ExpectedBulk(at), rest)
    else
      var len := Atoi(line.value[1..]);
      if len.None? || len.value < -1 || len.value > MAX_ARG_LEN then (InvalidBulkLength(at), rest)
      else if len.value == -1 then (Args([""]), rest)
      else if |rest| < len.value + 2 then (Eof, "")
      else (Args([rest[..len.value]]), rest[len.value + 2..])
  }

  /** Arguments `at` to `count` of an array. */
  function ReadBulks(s: string, at: nat, count: nat): (Reply, string)
    requires at <= count
    decreases count - at
  {
    if at == count then (Args([]), s)
    else
      var (first, rest) := ReadBulk(s, at);
      if !first.Args? then (first, rest)
      else
        var (others, left) := ReadBulks(rest, at + 1, count);
        (if others.Args? then Args(first.args + others.args) else others, left)
  }

  predicate IsSpace(c: char) {
    c == ' ' || '\t' <= c <= '\r'
  }

  /** `strings.Fields`. */
  function Fields(s: string): seq<string> {
    if s == "" then []
    else if IsSpace(s[0]) then Fields(s[1..])
    else
      var n := WordLength(s);
      [s[..n]] + Fields(s[n..])
  }

  function WordLength(s: string): (n: nat)
    ensures n <= |s| && (s != "" && !IsSpace(s[0]) ==> n > 0)
    ensures (forall j :: 0 <= j < n ==> !IsSpace(s[j])) && (n < |s| ==> IsSpace(s[n]))
  {
    if s == "" || IsSpace(s[0]) then 0 else 1 + WordLength(s[1..])
  }

  /** `readCommand`. */
  function ReadCommand(s: string): (Reply, string) {
    var (line, rest) := ReadLine(s);
    if line.None? then (Eof, rest)
    else if line.value == "" then (Args([]), rest)
    else if line.value[0] == '*' then
      var count := Atoi(line.value[1..]);
      if count.None? || count.value <= 0 || count.value > MAX_ARGS then (InvalidArrayLength, rest)
      else ReadBulks(rest, 0, count.value)
    else
      var fields := Fields(line.value);
      (if |fields| > MAX_ARGS then TooManyArgs else Args(fields), rest)
  }

  // ---------------------------------------------------------------- line ends

  /** The end of a line: a newline after any number of carriage returns, so LF and CR LF among others. */
  predicate LineEnd(eol: string) {
    eol != "" && eol[|eol| - 1] == '\n' && forall i :: 0 <= i < |eol| - 1 ==> eol[i] == '\r'
  }

  /** What a line can hold: no newline, and no carriage return at its end. */
  predicate Line(s: string) {
    '\n' !in s && (s == "" || s[|s| - 1] != '\r')
  }

  lemma NewlineAt(head: string, tail: string)
    requires '\n' !in head
    ensures Newline(head + "\n" + tail) == |head|
  {
    var s := head + "\n" + tail;
    assert s[|head|] == '\n';
    forall j | 0 <= j < |head| ensures s[j] != '\n' { assert s[j] == head[j] && head[j] in head; }
  }

  lemma {:induction false} TrimKeeps(s: string, ends: string)
    requires s == "" || (s[|s| - 1] != '\r' && s[|s| - 1] != '\n')
    requires forall i :: 0 <= i < |ends| ==> ends[i] == '\r' || ends[i] == '\n'
    ensures TrimRight(s + ends) == s
    decreases |ends|
  {
    var t := s + ends;
    if ends == "" {
      assert t == s;
    } else {
      assert t[|t| - 1] == ends[|ends| - 1];
      assert t[..|t| - 1] == s + ends[..|ends| - 1];
      TrimKeeps(s, ends[..|ends| - 1]);
    }
  }

  /** A line reads back without its end, whatever the end is, and leaves exactly what follows. */
  lemma LineReadsBack(line: string, eol: string, tail: string)
    requires Line(line) && LineEnd(eol)
    ensures ReadLine(line + eol + tail) == (Some(line), tail)
  {
    hide TrimRight;
    var s := line + eol + tail;
    var crs := eol[..|eol| - 1];
    assert eol == crs + "\n";
    assert s == (line + crs) + "\n" + tail;
    forall i | 0 <= i < |line + crs| ensures (line + crs)[i] != '\n' {
      if i < |line| { assert line[i] in line; }
    }
    NewlineAt(line + crs, tail);
    assert s[..|line| + |eol|] == line + eol && s[|line| + |eol|..] == tail;
    if line != "" { assert line[|line| - 1] in line; }
    TrimKeeps(line, eol);
  }

  /** LF alone and CR LF end a line alike. */
  lemma EitherEndReadsBack(line: string, tail: string)
    requires Line(line)
    ensures ReadLine(line + "\n" + tail) == ReadLine(line + "\r\n" + tail) == (Some(line), tail)
  {
    hide ReadLine;
    LineReadsBack(line, "\n", tail);
    LineReadsBack(line, "\r\n", tail);
  }

  // ---------------------------------------------------------------- encoding

  /** `bulkString`, and each argument of a client's command, with the line end the client uses. */
  function EncodeBulk(s: string, eol: string): string {
    "$" + Decimal(|s|) + eol + s + "\r\n"
  }

  function EncodeBulks(args: seq<string>, eol: string): string {
    if args == [] then "" else EncodeBulk(args[0], eol) + EncodeBulks(args[1..], eol)
  }

  /** A command as clients send it. */
  function EncodeCommand(args: seq<string>, eol: string): string {
    "*" + Decimal(|args|) + eol + EncodeBulks(args, eol)
  }

  // ---------------------------------------------------------------- reading back

  /** A header line: a marker and a number. */
  function Header(marker: char, n: nat): string {
    [marker] + Decimal(n)
  }

  lemma HeaderLine(marker: char, n: nat, eol: string, tail: string)
    requires marker != '\n' && LineEnd(eol)
    ensures ReadLine(Header(marker, n) + eol + tail) == (Some(Header(marker, n)), tail)
  {
    hide ReadLine;
    NoNewline(marker, n);
    LineReadsBack(Header(marker, n), eol, tail);
  }

  lemma NoNewline(marker: char, n: nat)
    requires marker != '\n'
    ensures '\n' !in Header(marker, n) && Header(marker, n)[|Header(marker, n)| - 1] != '\r'
  {
    hide Decimal;
    ParseDecimal(n);
  }

  /** Reading inverts encoding for one argument, whatever bytes it holds and whatever two bytes end it. */
  lemma BulkReadsBack(arg: string, eol: string, a: char, b: char, rest: string, at: nat)
    requires LineEnd(eol)
    ensures ReadBulk("$" + Decimal(|arg|) + eol + arg + [a, b] + rest, at) ==
            if |arg| <= 1_048_576 then (Args([arg]), rest) else (InvalidBulkLength(at), arg + [a, b] + rest)
  {
    hide Decimal, Atoi, ReadLine, ReadBulk;
    var tail := arg + [a, b] + rest;
    var s := Header('$', |arg|) + eol + tail;
    assert "$" + Decimal(|arg|) + eol + arg + [a, b] + rest == s;
    HeaderLine('$', |arg|, eol, tail);
    ReadAfterHeader(s, |arg|, tail, at);
    assert tail[..|arg|] == arg && tail[|arg| + 2..] == rest;
  }

  /** Reading an argument once its header line is known. */
  lemma ReadAfterHeader(s: string, n: nat, tail: string, at: nat)
    requires ReadLine(s) == (Some(Header('$', n)), tail)
    ensures ReadBulk(s, at) ==
            if n > 1_048_576 then (InvalidBulkLength(at), tail)
            else if |tail| < n + 2 then (Eof, "")
            else (Args([tail[..n]]), tail[n + 2..])
  {
    hide Decimal, Atoi, ReadLine;
    assert Header('$', n)[1..] == Decimal(n);
    AtoiDecimal(n);
  }

  /** No argument is longer than a mebibyte. */
  predicate Fit(args: seq<string>) {
    forall i :: 0 <= i < |args| ==> |args[i]| <= 1_048_576
  }

  /** Within the limit every argument reads back; otherwise the first that is too long is reported. */
  lemma {:induction false} BulksReadBack(args: seq<string>, eol: string, rest: string, at: nat)
    requires LineEnd(eol)
    ensures var r := ReadBulks(EncodeBulks(args, eol) + rest, at, at + |args|);
            if Fit(args) then r == (Args(args), rest)
            else r.0.InvalidBulkLength?
  {
    hide ReadBulk, EncodeBulk;
    if args == [] {
      assert EncodeBulks(args, eol) + rest == rest;
    } else {
      var tail := EncodeBulks(args[1..], eol) + rest;
      assert EncodeBulks(args, eol) + rest == EncodeBulk(args[0], eol) + tail;
      OneBulk(args[0], eol, tail, at);
      BulksReadBack(args[1..], eol, rest, at + 1);
      assert args == [args[0]] + args[1..];
      assert Fit(args) <==> |args[0]| <= 1_048_576 && Fit(args[1..]) by { FitCons(args); }
    }
  }

  lemma FitCons(args: seq<string>)
    requires args != []
    ensures Fit(args) <==> |args[0]| <= 1_048_576 && Fit(args[1..])
  {
    if |args[0]| <= 1_048_576 && Fit(args[1..]) {
      forall i | 0 <= i < |args| ensures |args[i]| <= 1_048_576 {
        if i > 0 { assert args[i] == args[1..][i - 1]; }
      }
    }
  }

  lemma OneBulk(arg: string, eol: string, tail: string, at: nat)
    requires LineEnd(eol)
    ensures |arg| <= 1_048_576 ==> ReadBulk(EncodeBulk(arg, eol) + tail, at) == (Args([arg]), tail)
    ensures |arg| > 1_048_576 ==> ReadBulk(EncodeBulk(arg, eol) + tail, at).0 == InvalidBulkLength(at)
  {
    hide ReadBulk, Decimal;
    assert EncodeBulk(arg, eol) + tail == "$" + Decimal(|arg|) + eol + arg + ['\r', '\n'] + tail;
    BulkReadsBack(arg, eol, '\r', '\n', tail, at);
  }

  /**
   * Framing is exact, whatever line end the client uses: a command reads back as itself, leaving exactly the bytes after it,
   * if and only if it has 1 to 10000 arguments of at most 1 MiB each.
   */
  lemma CommandReadsBackIff(args: seq<string>, eol: string, rest: string)
    requires LineEnd(eol)
    ensures ReadCommand(EncodeCommand(args, eol) + rest) == (Args(args), rest) <==>
            1 <= |args| <= 10_000 && Fit(args)
    ensures !(1 <= |args| <= 10_000 && Fit(args)) ==>
              ReadCommand(EncodeCommand(args, eol) + rest).0.InvalidArrayLength?
              || ReadCommand(EncodeCommand(args, eol) + rest).0.InvalidBulkLength?
  {
    hide Decimal, Atoi, ReadLine, EncodeBulks, ReadBulks, Fit;
    var tail := EncodeBulks(args, eol) + rest;
    assert EncodeCommand(args, eol) + rest == Header('*', |args|) + eol + tail;
    HeaderLine('*', |args|, eol, tail);
    assert Header('*', |args|)[1..] == Decimal(|args|);
    AtoiDecimal(|args|);
    BulksReadBack(args, eol, rest, 0);
  }

  // ---------------------------------------------------------------- headers that are no length

  /** A null argument reads as the empty string, and consumes nothing more. */
  lemma NullReadsEmpty(eol: string, rest: string, at: nat)
    requires LineEnd(eol)
    ensures ReadBulk("$-1" + eol + rest, at) == (Args([""]), rest)
  {
    hide ReadLine, Atoi;
    LineReadsBack("$-1", eol, rest);
    assert Decimal(1) == "1" && "-" + Decimal(1) == "-1" && "$-1"[1..] == "-1";
    AtoiSigned(1);
  }

  /** Whatever else stands where an argument should begin is reported, and only its line is consumed. */
  lemma NoArgument(line: string, eol: string, rest: string, at: nat)
    requires Line(line) && LineEnd(eol)
    ensures line == "" || line[0] != '$' ==> ReadBulk(line + eol + rest, at) == (ExpectedBulk(at), rest)
    ensures line != "" && line[0] == '$' && (Atoi(line[1..]).None? || Atoi(line[1..]).value < -1) ==>
              ReadBulk(line + eol + rest, at) == (InvalidBulkLength(at), rest)
  {
    hide ReadLine, Atoi;
    LineReadsBack(line, eol, rest);
  }

  /** An array header without a positive length is refused; a blank line is no command. */
  lemma NoArray(line: string, eol: string, rest: string)
    requires Line(line) && LineEnd(eol)
    ensures line == "" ==> ReadCommand(line + eol + rest) == (Args([]), rest)
    ensures line != "" && line[0] == '*' && (Atoi(line[1..]).None? || Atoi(line[1..]).value <= 0) ==>
              ReadCommand(line + eol + rest) == (InvalidArrayLength, rest)
  {
    hide ReadLine, Atoi, ReadBulks, Fields;
    LineReadsBack(line, eol, rest);
  }

  // ---------------------------------------------------------------- streams

  function EncodeAll(cmds: seq<seq<string>>, eol: string): string {
    if cmds == [] then "" else EncodeCommand(cmds[0], eol) + EncodeAll(cmds[1..], eol)
  }

  /** Reading `n` times, one after the other. */
  function ReadMany(s: string, n: nat): (seq<Reply>, string)
    decreases n
  {
    if n == 0 then ([], s)
    else
      var (first, rest) := ReadCommand(s);
      var (others, left) := ReadMany(rest, n - 1);
      ([first] + others, left)
  }

  function Replies(cmds: seq<seq<string>>): seq<Reply> {
    seq(|cmds|, i requires 0 <= i < |cmds| => Args(cmds[i]))
  }

  lemma EncodeCons(cmds: seq<seq<string>>, eol: string, rest: string)
    ensures EncodeAll(cmds, eol) + rest ==
            if cmds == [] then rest else EncodeCommand(cmds[0], eol) + (EncodeAll(cmds[1..], eol) + rest)
  {
    hide EncodeCommand;
    if cmds != [] {
      assert EncodeCommand(cmds[0], eol) + EncodeAll(cmds[1..], eol) + rest ==
             EncodeCommand(cmds[0], eol) + (EncodeAll(cmds[1..], eol) + rest);
    } else {
      assert EncodeAll(cmds, eol) + rest == rest;
    }
  }

  lemma RepliesCons(cmds: seq<seq<string>>)
    requires cmds != []
    ensures Replies(cmds) == [Args(cmds[0])] + Replies(cmds[1..])
  {
  }

  lemma ReadNone(s: string)
    ensures ReadMany(s, 0) == ([], s) && Replies([]) == []
  {
  }

  lemma ReadOneMore(s: string, tail: string, args: seq<string>, n: nat)
    requires ReadCommand(s) == (Args(args), tail)
    ensures ReadMany(s, n + 1) == ([Args(args)] + ReadMany(tail, n).0, ReadMany(tail, n).1)
  {
    hide ReadCommand;
  }

  /** Any sequence of pipelined commands is read back exactly, and exactly the remaining bytes are left. */
  lemma {:induction false} PipelineReadsBack(cmds: seq<seq<string>>, eol: string, rest: string)
    requires LineEnd(eol) && forall c <- cmds :: 1 <= |c| <= 10_000 && Fit(c)
    ensures ReadMany(EncodeAll(cmds, eol) + rest, |cmds|) == (Replies(cmds), rest)
  {
    hide ReadCommand, EncodeCommand, Fit, ReadMany, Replies, EncodeAll;
    EncodeCons(cmds, eol, rest);
    if cmds == [] {
      ReadNone(rest);
    } else {
      var tail := EncodeAll(cmds[1..], eol) + rest;
      CommandReadsBackIff(cmds[0], eol, tail);
      PipelineReadsBack(cmds[1..], eol, rest);
      ReadOneMore(EncodeCommand(cmds[0], eol) + tail, tail, cmds[0], |cmds| - 1);
      RepliesCons(cmds);
    }
  }

  // ---------------------------------------------------------------- truncated input

  lemma NoNewlineNoLine(s: string)
    requires '\n' !in s
    ensures ReadLine(s) == (None, "")
  {
    forall j | 0 <= j < |s| ensures s[j] != '\n' { assert s[j] in s; }
  }

  lemma NoEnd(h: string, eol: string, n: nat)
    requires '\n' !in h && LineEnd(eol) && n < |h| + |eol|
    ensures ReadLine((h + eol)[..n]) == (None, "")
  {
    var cut := (h + eol)[..n];
    forall i | 0 <= i < |cut| ensures cut[i] != '\n' { if i < |h| { assert h[i] in h; } }
    NoNewlineNoLine(cut);
  }

  /** Cut anywhere inside its encoding, an argument reads as end of input. */
  lemma CutBulk(arg: string, eol: string, n: nat, at: nat)
    requires LineEnd(eol) && |arg| <= 1_048_576 && n < |EncodeBulk(arg, eol)|
    ensures ReadBulk(EncodeBulk(arg, eol)[..n], at).0 == Eof
  {
    hide Decimal, Atoi, ReadLine;
    var h := Header('$', |arg|);
    var whole := EncodeBulk(arg, eol);
    var cut := whole[..n];
    assert whole == h + eol + arg + "\r\n";
    if n < |h| + |eol| {
      assert cut == (h + eol)[..n];
      NoNewline('$', |arg|);
      NoEnd(h, eol, n);
    } else {
      var tail := (arg + "\r\n")[..n - |h| - |eol|];
      assert cut == h + eol + tail;
      HeaderLine('$', |arg|, eol, tail);
      ReadAfterHeader(cut, |arg|, tail, at);
    }
  }

  lemma {:induction false} CutBulks(args: seq<string>, eol: string, n: nat, at: nat)
    requires LineEnd(eol) && Fit(args) && n < |EncodeBulks(args, eol)|
    ensures ReadBulks(EncodeBulks(args, eol)[..n], at, at + |args|).0 == Eof
  {
    hide ReadBulk, EncodeBulk;
    var first, others := EncodeBulk(args[0], eol), EncodeBulks(args[1..], eol);
    var cut := EncodeBulks(args, eol)[..n];
    if n < |first| {
      assert cut == first[..n];
      CutBulk(args[0], eol, n, at);
    } else {
      assert cut == first + others[..n - |first|];
      OneBulk(args[0], eol, others[..n - |first|], at);
      assert Fit(args[1..]) by { FitCons(args); }
      CutBulks(args[1..], eol, n - |first|, at + 1);
    }
  }

  /** No truncated command is ever taken for a command: every proper prefix of an encoding reads as end of input. */
  lemma TruncatedReadsAsEof(args: seq<string>, eol: string, n: nat)
    requires LineEnd(eol) && 1 <= |args| <= 10_000 && Fit(args) && n < |EncodeCommand(args, eol)|
    ensures ReadCommand(EncodeCommand(args, eol)[..n]).0 == Eof
  {
    hide Decimal, Atoi, ReadLine, EncodeBulks, ReadBulks, Fit;
    var h := Header('*', |args|);
    var whole := EncodeCommand(args, eol);
    var cut := whole[..n];
    assert whole == h + eol + EncodeBulks(args, eol);
    if n < |h| + |eol| {
      assert cut == (h + eol)[..n];
      NoNewline('*', |args|);
      NoEnd(h, eol, n);
    } else {
      var tail := EncodeBulks(args, eol)[..n - |h| - |eol|];
      assert cut == h + eol + tail;
      HeaderLine('*', |args|, eol, tail);
      assert h[1..] == Decimal(|args|);
      AtoiDecimal(|args|);
      CutBulks(args, eol, n - |h| - |eol|, 0);
    }
  }

  // ---------------------------------------------------------------- inline commands

  /** Space, tab, line feed, vertical tab, form feed, carriage return. */
  predicate Blank(c: char) {
    c in {' ', '\t', '\n', 11 as char, 12 as char, '\r'}
  }

  lemma SpacesAreBlank(c: char)
    ensures IsSpace(c) <==> Blank(c)
  {
  }

  predicate Word(w: string) {
    w != "" && forall i :: 0 <= i < |w| ==> !Blank(w[i])
  }

  predicate Gap(g: string) {
    forall i :: 0 <= i < |g| ==> Blank(g[i])
  }

  /** Words with gaps after them; only the last gap may be empty. */
  predicate Spaced(ws: seq<string>, gaps: seq<string>) {
    && |ws| == |gaps| && (forall i :: 0 <= i < |ws| ==> Word(ws[i]) && Gap(gaps[i]))
    && forall i :: 0 <= i < |ws| - 1 ==> gaps[i] != ""
  }

  function Join(ws: seq<string>, gaps: seq<string>): string
    requires |ws| == |gaps|
  {
    if ws == [] then "" else ws[0] + gaps[0] + Join(ws[1..], gaps[1..])
  }

  lemma {:induction false} FieldsAfterGap(g: string, tail: string)
    requires Gap(g)
    ensures Fields(g + tail) == Fields(tail)
  {
    if g == "" {
      assert g + tail == tail;
    } else {
      SpacesAreBlank(g[0]);
      assert (g + tail)[1..] == g[1..] + tail;
      FieldsAfterGap(g[1..], tail);
    }
  }

  lemma FieldsOfWord(w: string, tail: string)
    requires Word(w) && (tail == "" || Blank(tail[0]))
    ensures Fields(w + tail) == [w] + Fields(tail)
  {
    var s := w + tail;
    forall j | 0 <= j < |w| ensures !IsSpace(s[j]) { assert s[j] == w[j]; SpacesAreBlank(w[j]); }
    if tail != "" { assert s[|w|] == tail[0]; SpacesAreBlank(tail[0]); }
    assert WordLength(s) == |w|;
    assert s[..|w|] == w && s[|w|..] == tail;
  }

  lemma {:induction false} FieldsOfJoin(ws: seq<string>, gaps: seq<string>)
    requires Spaced(ws, gaps)
    ensures Fields(Join(ws, gaps)) == ws
  {
    hide Fields;
    if ws == [] {
      NoFields();
    } else {
      var rest := Join(ws[1..], gaps[1..]);
      assert Word(ws[0]) && Gap(gaps[0]);
      assert Spaced(ws[1..], gaps[1..]);
      FieldsOfJoin(ws[1..], gaps[1..]);
      var tail := gaps[0] + rest;
      assert Join(ws, gaps) == ws[0] + tail;
      if gaps[0] == "" { assert |ws| == 1 && rest == "" && tail == ""; } else { assert tail[0] == gaps[0][0]; }
      FieldsOfWord(ws[0], tail);
      FieldsAfterGap(gaps[0], rest);
      assert ws == [ws[0]] + ws[1..];
    }
  }

  lemma NoFields()
    ensures Fields("") == []
  {
  }

  /**
   * An inline line reads back as its words, whatever blanks are before, between and after them and whatever ends the line,
   * unless there are more than 10000 or the line starts like an array.
   */
  lemma InlineReadsBack(lead: string, ws: seq<string>, gaps: seq<string>, eol: string, rest: string)
    requires Gap(lead) && Spaced(ws, gaps) && Line(lead + Join(ws, gaps)) && LineEnd(eol)
    requires var line := lead + Join(ws, gaps); line == "" || line[0] != '*'
    ensures ReadCommand(lead + Join(ws, gaps) + eol + rest) == (if |ws| > 10_000 then TooManyArgs else Args(ws), rest)
  {
    hide ReadLine, ReadCommand, Fields, Join, Gap, Word;
    var line := lead + Join(ws, gaps);
    LineReadsBack(line, eol, rest);
    FieldsAfterGap(lead, Join(ws, gaps));
    FieldsOfJoin(ws, gaps);
    NoFields();
    ReadInline(line + eol + rest, line, rest);
  }

  /** A line that is no array header is split into fields; the empty line has none. */
  lemma ReadInline(s: string, line: string, rest: string)
    requires ReadLine(s) == (Some(line), rest) && (line == "" || line[0] != '*')
    ensures ReadCommand(s) == (if |Fields(line)| > 10_000 then TooManyArgs else Args(Fields(line)), rest)
  {
    hide ReadLine, Atoi, ReadBulks;
    hide WordLength;
  }
}
