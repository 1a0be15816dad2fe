/**
 * `readCommand` in place (internal/protocol/resp3/server.go): a buffered reader that is consumed, and an argument list
 * that grows in a loop.
 */
module RespReader {
  import opened Core
  import opened Decimals
  import opened RespSpec

  class Reader {
    const data: string
    var pos: nat

    ghost predicate Valid()
      reads this
    {
      pos <= |data|
    }

    /** The bytes not read yet. */
    ghost function Rest(): string
      reads this
      requires Valid()
    {
      data[pos..]
    }

    constructor (data: string)
      ensures Valid() && Rest() == data
    {
      this.data := data;
      pos := 0;
    }

    /** `ReadString('\n')`, then `TrimRight` of the line end. */
    method ReadLine() returns (line: Option<string>)
      requires Valid()
      modifies this
      ensures Valid() && (line, Rest()) == RespSpec.ReadLine(old(Rest()))
    {
      hide TrimRight;
      ghost var input := Rest();
      var i := pos;
      while i < |data| && data[i] != '\n'
        invariant pos == old(pos) && pos <= i <= |data|
        invariant forall j :: pos <= j < i ==> data[j] != '\n'
      {
        i := i + 1;
      }
      NewlineIs(input, i - pos);
      if i == |data| {
        pos := |data|;
        assert Rest() == "";
        return None;
      }
      line := Some(TrimRight(data[pos..i + 1]));
      assert data[pos..i + 1] == input[..i + 1 - pos];
      pos := i + 1;
      assert Rest() == input[i + 1 - old(pos)..];
    }

    /** `io.ReadFull` into a buffer of `n` bytes; a short input is consumed and reported. */
    method ReadFull(n: nat) returns (bytes: Option<string>)
      requires Valid()
      modifies this
      ensures Valid()
      ensures |old(Rest())| < n ==> bytes == None && Rest() == ""
      ensures |old(Rest())| >= n ==> bytes == Some(old(Rest())[..n]) && Rest() == old(Rest())[n..]
    {
      if |data| - pos < n {
        pos := |data|;
        return None;
      }
      bytes := Some(data[pos..pos + n]);
      assert data[pos..pos + n] == Rest()[..n];
      pos := pos + n;
    }

    /** The body of the argument loop. */
    method ReadArgument(at: nat) returns (r: Reply)
      requires Valid()
      modifies this
      ensures Valid() && (r, Rest()) == ReadBulk(old(Rest()), at)
      ensures r.Args? ==> |r.args| == 1
    {
      hide RespSpec.ReadLine, Atoi;
      var bulk := ReadLine();
      if bulk.None? {
        return Eof;
      }
      if |bulk.value| == 0 || bulk.value[0] != '$' {
        return ExpectedBulk(at);
      }
      var strLen := Atoi(bulk.value[1..]);
      if strLen.None? || strLen.value < -1 || strLen.value > MAX_ARG_LEN {
        return InvalidBulkLength(at);
      }
      if strLen.value == -1 {
        return Args([""]);
      }
      ghost var rest := Rest();
      var bytes := ReadFull(strLen.value + 2);
      if bytes.None? {
        return Eof;
      }
      assert bytes.value[..strLen.value] == rest[..strLen.value];
      r := Args([bytes.value[..strLen.value]]);
    }

    /** The argument loop: all arguments, or the first failure. */
    method ReadArguments(count: nat) returns (r: Reply)
      requires Valid()
      modifies this
      ensures Valid() && (r, Rest()) == ReadBulks(old(Rest()), 0, count)
    {
      hide ReadBulk, ReadBulks;
      ghost var input := Rest();
      var args: seq<string> := [];
      var i := 0;
      PrependNone(ReadBulks(input, 0, count));
      while i < count
        invariant Valid() && i <= count
        invariant ReadBulks(input, 0, count) == Prepend(args, ReadBulks(Rest(), i, count))
      {
        ghost var before := Rest();
        var arg := ReadArgument(i);
        StepBulks(before, i, count);
        if !arg.Args? {
          return arg;
        }
        PrependTwice(args, arg.args, ReadBulks(Rest(), i + 1, count));
        args := args + arg.args;
        i := i + 1;
      }
      EndBulks(Rest(), count);
      assert args + [] == args;
      r := Args(args);
    }

    /** `readCommand`. */
    method ReadCommand() returns (r: Reply)
      requires Valid()
      modifies this
      ensures Valid() && (r, Rest()) == RespSpec.ReadCommand(old(Rest()))
    {
      hide RespSpec.ReadLine, Atoi, ReadBulks, Fields;
      var line := ReadLine();
      if line.None? {
        return Eof;
      }
      if |line.value| == 0 {
        return Args([]);
      }
      if line.value[0] == '*' {
        var count := Atoi(line.value[1..]);
        if count.None? || count.value <= 0 || count.value > MAX_ARGS {
          return InvalidArrayLength;
        }
        r := ReadArguments(count.value);
        return;
      }
      var fields := Fields(line.value);
      if |fields| > MAX_ARGS {
        return TooManyArgs;
      }
      r := Args(fields);
    }
  }

  lemma NewlineIs(s: string, i: nat)
    requires i <= |s| && (forall j :: 0 <= j < i ==> s[j] != '\n') && (i < |s| ==> s[i] == '\n')
    ensures Newline(s) == i
  {
  }

  /** A partial argument list in front of what the rest of the loop yields. */
  function Prepend(args: seq<string>, r: (Reply, string)): (Reply, string) {
    (if r.0.Args? then Args(args + r.0.args) else r.0, r.1)
  }

  lemma PrependNone(r: (Reply, string))
    ensures Prepend([], r) == r
  {
    if r.0.Args? { assert [] + r.0.args == r.0.args; }
  }

  lemma PrependTwice(a: seq<string>, b: seq<string>, r: (Reply, string))
    ensures Prepend(a, Prepend(b, r)) == Prepend(a + b, r)
  {
    if r.0.Args? { assert a + (b + r.0.args) == (a + b) + r.0.args; }
  }

  lemma StepBulks(s: string, at: nat, count: nat)
    requires at < count
    ensures var (first, rest) := ReadBulk(s, at);
            ReadBulks(s, at, count) ==
            if first.Args? then Prepend(first.args, ReadBulks(rest, at + 1, count)) else (first, rest)
  {
    hide ReadBulk;
  }

  lemma EndBulks(s: string, count: nat)
    ensures ReadBulks(s, count, count) == (Args([]), s)
  {
  }
}
