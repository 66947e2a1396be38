/** Building a command line for a child process out of arguments, and the documented way to take it apart again. */
module CommandLine {

  type wchar = x: int | 0 <= x < 0x1_0000

  const BACKSLASH: wchar := 0x5C
  const QUOTE: wchar := 0x22
  const SPACE: wchar := 0x20
  const TAB: wchar := 0x09
  const CHAR_SIZE: nat := 2
  const SIZE_MAX: nat := 0xFFFF_FFFF
  const MAX_ARGUMENT: nat := 0x1FFF_FFFF

  // ---- What is written ----

  function Backslashes(n: nat): (s: seq<wchar>)
    ensures |s| == n && forall i :: 0 <= i < n ==> s[i] == BACKSLASH
  {
    seq(n, _ => BACKSLASH)
  }

  /** Number of backslashes at the start of s. */
  function Run(s: seq<wchar>): (n: nat)
    ensures n <= |s| && s[..n] == Backslashes(n)
    ensures n < |s| ==> s[n] != BACKSLASH
  {
    if s != [] && s[0] == BACKSLASH then
      assert s[..1 + Run(s[1..])] == [s[0]] + s[1..][..Run(s[1..])];
      1 + Run(s[1..])
    else 0
  }

  /** An argument between its quotes: backslashes double before a quote and at the end. */
  function Escape(arg: seq<wchar>): (s: seq<wchar>)
    decreases |arg|
  {
    var n := Run(arg);
    if n == |arg| then Backslashes(2 * n)
    else if arg[n] == QUOTE then Backslashes(2 * n + 1) + [QUOTE] + Escape(arg[n + 1..])
    else Backslashes(n) + [arg[n]] + Escape(arg[n + 1..])
  }

  function QuoteArgument(arg: seq<wchar>): seq<wchar> {
    [QUOTE] + Escape(arg) + [QUOTE]
  }

  function CommandLineOf(args: seq<seq<wchar>>): seq<wchar>
    decreases |args|
  {
    if args == [] then []
    else CommandLineOf(args[..|args| - 1]) + (if |args| > 1 then [SPACE] else []) + QuoteArgument(args[|args| - 1])
  }

  // ---- How it is read: the documented rules of CommandLineToArgvW for arguments after the program name ----

  predicate IsBlank(c: wchar) {
    c == SPACE || c == TAB
  }

  /** The argument at the start of s, and what follows it. */
  function ParseArgument(s: seq<wchar>, quoted: bool): (r: (seq<wchar>, seq<wchar>))
    ensures |r.1| <= |s|
    decreases |s|
  {
    var n := Run(s);
    if n == |s| then (Backslashes(n), [])
    else if s[n] == QUOTE then
      if n % 2 == 1 then
        var (arg, rest) := ParseArgument(s[n + 1..], quoted);
        (Backslashes(n / 2) + [QUOTE] + arg, rest)
      else
        var (arg, rest) := ParseArgument(s[n + 1..], !quoted);
        (Backslashes(n / 2) + arg, rest)
    else if !quoted && IsBlank(s[n]) then (Backslashes(n), s[n..])
    else
      var (arg, rest) := ParseArgument(s[n + 1..], quoted);
      (Backslashes(n) + [s[n]] + arg, rest)
  }

  function ParseCommandLine(s: seq<wchar>): seq<seq<wchar>>
    decreases |s|
  {
    if s == [] then []
    else if IsBlank(s[0]) then ParseCommandLine(s[1..])
    else
      var (arg, rest) := ParseArgument(s, false);
      if |rest| < |s| then [arg] + ParseCommandLine(rest) else [arg]
  }

  // ---- The round trip ----

  lemma {:induction false} RunOf(n: nat, s: seq<wchar>)
    requires s != [] ==> s[0] != BACKSLASH
    ensures Run(Backslashes(n) + s) == n
    decreases n
  {
    var t := Backslashes(n) + s;
    if n > 0 {
      assert t[1..] == Backslashes(n - 1) + s;
      RunOf(n - 1, s);
    } else {
      assert t == s;
    }
  }

  /** One turn of the reader inside quotes: backslashes and the character that ends them. */
  lemma {:induction false} ParseTurn(m: nat, c: wchar, u: seq<wchar>)
    requires c != BACKSLASH
    ensures var r := ParseArgument(u, if c == QUOTE && m % 2 == 0 then false else true);
      ParseArgument(Backslashes(m) + [c] + u, true)
      == ((if c == QUOTE then Backslashes(m / 2) + (if m % 2 == 1 then [QUOTE] else [])
           else Backslashes(m) + [c]) + r.0, r.1)
  {
    hide Run;
    var s := Backslashes(m) + [c] + u;
    var t := [c] + u;
    assert s == Backslashes(m) + t;
    RunOf(m, t);
    assert s[m] == c && s[m + 1..] == u;
    assert c == QUOTE && m % 2 == 0 ==> Backslashes(m / 2) + [] == Backslashes(m / 2);
  }

  /** After the closing quote a blank or the end of the line ends the argument. */
  lemma {:induction false} ParseEnd(rest: seq<wchar>)
    requires rest == [] || IsBlank(rest[0])
    ensures ParseArgument(rest, false) == ([], rest)
  {
    assert Run(rest) == 0;
    assert rest[0..] == rest;
  }

  lemma {:induction false} EscapeTurn(arg: seq<wchar>)
    requires Run(arg) < |arg|
    ensures var n := Run(arg); var m := if arg[n] == QUOTE then 2 * n + 1 else n;
      Escape(arg) == Backslashes(m) + [arg[n]] + Escape(arg[n + 1..])
  {
    hide Run;
  }

  lemma {:induction false} Regroup(a: seq<wchar>, b: seq<wchar>, c: seq<wchar>, d: seq<wchar>)
    ensures a + b + c + d == a + (b + c + d)
  {
  }

  lemma {:induction false} SplitAt(arg: seq<wchar>, n: nat)
    requires n < |arg|
    ensures arg[..n] + [arg[n]] + arg[n + 1..] == arg
  {
  }

  /** Reading what Escape wrote, up to the closing quote and an end of the argument. */
  lemma {:induction false} ParseEscaped(arg: seq<wchar>, rest: seq<wchar>)
    requires rest == [] || IsBlank(rest[0])
    ensures ParseArgument(Escape(arg) + [QUOTE] + rest, true) == (arg, rest)
    decreases |arg|
  {
    hide ParseArgument, Backslashes, Run, Escape;
    if Run(arg) == |arg| {
      ParseEscapedEnd(arg, rest);
    } else {
      ParseEscaped(arg[Run(arg) + 1..], rest);
      ParseEscapedTurn(arg, rest);
    }
  }

  lemma {:induction false} ParseEscapedEnd(arg: seq<wchar>, rest: seq<wchar>)
    requires rest == [] || IsBlank(rest[0])
    requires Run(arg) == |arg|
    ensures ParseArgument(Escape(arg) + [QUOTE] + rest, true) == (arg, rest)
  {
    hide ParseArgument, Backslashes, Run;
    var n := |arg|;
    assert arg[..n] == arg;
    ParseTurn(2 * n, QUOTE, rest);
    ParseEnd(rest);
    assert Backslashes(n) + [] + [] == Backslashes(n);
  }

  lemma {:induction false} ParseEscapedTurn(arg: seq<wchar>, rest: seq<wchar>)
    requires Run(arg) < |arg|
    requires ParseArgument(Escape(arg[Run(arg) + 1..]) + [QUOTE] + rest, true) == (arg[Run(arg) + 1..], rest)
    ensures ParseArgument(Escape(arg) + [QUOTE] + rest, true) == (arg, rest)
  {
    hide ParseArgument, Backslashes, Run, Escape;
    var n := Run(arg);
    var c, next := arg[n], arg[n + 1..];
    var m := if c == QUOTE then 2 * n + 1 else n;
    EscapeTurn(arg);
    Regroup(Backslashes(m) + [c], Escape(next), [QUOTE], rest);
    ParseTurn(m, c, Escape(next) + [QUOTE] + rest);
    SplitAt(arg, n);
  }

  lemma {:induction false} ParseOpen(u: seq<wchar>)
    ensures ParseArgument([QUOTE] + u, false) == ParseArgument(u, true)
  {
    hide Run;
    var s := [QUOTE] + u;
    assert s == Backslashes(0) + s;
    RunOf(0, s);
    assert s[1..] == u;
    var arg := ParseArgument(u, true).0;
    assert Backslashes(0) + arg == arg;
  }

  lemma {:induction false} ParseQuoted(arg: seq<wchar>, rest: seq<wchar>)
    requires rest == [] || IsBlank(rest[0])
    ensures ParseArgument(QuoteArgument(arg) + rest, false) == (arg, rest)
  {
    hide ParseArgument, Escape;
    var u := Escape(arg) + [QUOTE] + rest;
    assert QuoteArgument(arg) + rest == [QUOTE] + u;
    ParseOpen(u);
    ParseEscaped(arg, rest);
  }

  /** The rest of a command line after the arguments of front. */
  function Tail(args: seq<seq<wchar>>): seq<wchar>
    decreases |args|
  {
    if args == [] then [] else [SPACE] + QuoteArgument(args[0]) + Tail(args[1..])
  }

  lemma {:induction false} ParseTail(args: seq<seq<wchar>>)
    ensures ParseCommandLine(Tail(args)) == args
    decreases |args|
  {
    if args != [] {
      var s := Tail(args);
      var q := QuoteArgument(args[0]) + Tail(args[1..]);
      assert s[1..] == q;
      ParseQuoted(args[0], Tail(args[1..]));
      ParseTail(args[1..]);
      assert args == [args[0]] + args[1..];
    }
  }

  lemma {:induction false} TailAppend(args: seq<seq<wchar>>, arg: seq<wchar>)
    ensures Tail(args + [arg]) == Tail(args) + [SPACE] + QuoteArgument(arg)
    decreases |args|
  {
    if args == [] {
      assert args + [arg] == [arg];
      assert Tail([arg]) == [SPACE] + QuoteArgument(arg) + Tail([]);
    } else {
      assert (args + [arg])[1..] == args[1..] + [arg];
      TailAppend(args[1..], arg);
    }
  }

  lemma {:induction false} CommandLineIsTail(args: seq<seq<wchar>>)
    requires args != []
    ensures [SPACE] + CommandLineOf(args) == Tail(args)
    decreases |args|
  {
    hide QuoteArgument;
    var front, last := args[..|args| - 1], args[|args| - 1];
    assert args == front + [last];
    TailAppend(front, last);
    if front == [] {
      assert [SPACE] + QuoteArgument(last) == Tail(args);
    } else {
      CommandLineIsTail(front);
      Regroup([SPACE], CommandLineOf(front), [SPACE], QuoteArgument(last));
    }
  }

  /**
   * The round trip: taking the command line apart by the documented rules gives back exactly the arguments, whatever
   * backslashes, quotes and blanks they contain, empty arguments included.
   */
  lemma {:induction false} CommandLineRoundTrip(args: seq<seq<wchar>>)
    ensures ParseCommandLine(CommandLineOf(args)) == args
  {
    if args != [] {
      CommandLineIsTail(args);
      ParseTail(args);
      assert Tail(args)[1..] == CommandLineOf(args);
    }
  }

  /** No argument grows beyond twice its length and the two quotes, and a NUL-free argument stays NUL-free. */
  lemma {:induction false} QuoteBounds(arg: seq<wchar>)
    ensures |QuoteArgument(arg)| <= 2 * |arg| + 2
    ensures 0 !in arg ==> 0 !in QuoteArgument(arg)
  {
    hide Escape;
    EscapeBounds(arg);
  }

  lemma {:induction false} EscapeBounds(arg: seq<wchar>)
    ensures |Escape(arg)| <= 2 * |arg|
    ensures 0 !in arg ==> 0 !in Escape(arg)
    decreases |arg|
  {
    hide Run;
    var n := Run(arg);
    if n < |arg| {
      EscapeBounds(arg[n + 1..]);
    }
  }

  lemma {:induction false} CommandLineIsNulFree(args: seq<seq<wchar>>)
    requires forall i :: 0 <= i < |args| ==> 0 !in args[i]
    ensures 0 !in CommandLineOf(args)
    decreases |args|
  {
    if args != [] {
      CommandLineIsNulFree(args[..|args| - 1]);
      QuoteBounds(args[|args| - 1]);
    }
  }

  // ---- What the heap has to offer ----

  /**
   * Whether a buffer of len bytes can be made to hold `chars` characters and a terminator: it triples whenever it is
   * full, from two bytes at first, as long as the sizes fit and the heap has a block of each length asked for.
   */
  predicate Room(heap: nat -> bool, len: nat, chars: nat)
    decreases if CHAR_SIZE * chars < len then 0 else CHAR_SIZE * chars - len + 1
  {
    if CHAR_SIZE * chars < len || chars == 0 then true
    else
      var newLen := 3 * if len == 0 then CHAR_SIZE else len;
      newLen <= SIZE_MAX && heap(newLen) && Room(heap, newLen, chars)
  }

  lemma {:induction false} RoomForLess(heap: nat -> bool, len: nat, chars: nat, more: nat)
    requires chars <= more && Room(heap, len, more)
    ensures Room(heap, len, chars)
    decreases if CHAR_SIZE * more < len then 0 else CHAR_SIZE * more - len + 1
  {
    if !(CHAR_SIZE * chars < len || chars == 0) {
      RoomForLess(heap, 3 * if len == 0 then CHAR_SIZE else len, chars, more);
    }
  }

  /** Whether a buffer of len bytes can come to hold newPos of them and a terminator: it triples if it must. */
  predicate Grows(heap: nat -> bool, len: nat, newPos: nat) {
    newPos <= SIZE_MAX && (newPos >= len ==> 3 * newPos <= SIZE_MAX && heap(3 * newPos))
  }

  function GrownTo(len: nat, newPos: nat): nat {
    if newPos >= len then 3 * newPos else len
  }

  /**
   * What appending count characters to chars of them in a buffer of len bytes comes to: it succeeds if and only if
   * there is room, and then the buffer's new length has room for exactly what the old one could get to hold.
   */
  ghost predicate Outcome(heap: nat -> bool, len: nat, chars: nat, count: nat, ok: bool, newLen: nat) {
    && (ok <==> Room(heap, len, chars + count))
    && (ok ==> forall n: nat :: n >= chars + count ==> (Room(heap, len, n) <==> Room(heap, newLen, n)))
  }

  lemma {:induction false} OutcomeThen(heap: nat -> bool, len: nat, chars: nat, first: nat, mid: nat,
      second: nat, ok: bool, end: nat)
    requires Outcome(heap, len, chars, first, true, mid) && Outcome(heap, mid, chars + first, second, ok, end)
    ensures Outcome(heap, len, chars, first + second, ok, end)
  {
    hide Room;
  }

  lemma {:induction false} OutcomeFails(heap: nat -> bool, len: nat, chars: nat, first: nat, count: nat,
      mid: nat, end: nat)
    requires Outcome(heap, len, chars, first, false, mid) && first <= count
    ensures Outcome(heap, len, chars, count, false, end)
  {
    hide Room;
    if Room(heap, len, chars + count) {
      RoomForLess(heap, len, chars + first, chars + count);
    }
  }

  // ---- How it is written: a zeroed buffer grown by hand ----

  class CommandLineBuffer {
    var buffer: array?<wchar>
    var bufferPos: nat  // in bytes
    var bufferLen: nat  // in bytes

    /** The invariant of the buffer: there is always room for a terminator, and everything past the end is zero. */
    ghost predicate Valid()
      reads this, buffer
    {
      && bufferPos % CHAR_SIZE == 0
      && (buffer == null ==> bufferPos == 0 && bufferLen == 0)
      && (buffer != null ==>
            && bufferLen == CHAR_SIZE * buffer.Length
            && bufferPos + CHAR_SIZE <= bufferLen <= SIZE_MAX
            && forall i :: bufferPos / CHAR_SIZE <= i < buffer.Length ==> buffer[i] == 0)
    }

    ghost function Contents(): (s: seq<wchar>)
      requires Valid()
      reads this, buffer
      ensures |s| == bufferPos / CHAR_SIZE
    {
      if buffer == null then [] else buffer[..bufferPos / CHAR_SIZE]
    }

    constructor ()
      ensures Valid() && Contents() == [] && buffer == null && bufferLen == 0
    {
      buffer, bufferPos, bufferLen := null, 0, 0;
    }

    lemma {:induction false} Sizes()
      requires Valid()
      ensures bufferPos % CHAR_SIZE == 0 && bufferLen % CHAR_SIZE == 0
      ensures buffer == null ==> bufferLen == bufferPos == 0
      ensures buffer != null ==> bufferPos + CHAR_SIZE <= bufferLen <= SIZE_MAX
    {
    }

    /** A buffer has room for what it holds. */
    lemma {:induction false} Holds(heap: nat -> bool)
      requires Valid()
      ensures Outcome(heap, bufferLen, |Contents()|, 0, true, bufferLen)
    {
    }

    /** Reallocation: the same characters, then zeroes. */
    method Reallocate(newLen: nat)
      requires Valid() && newLen % CHAR_SIZE == 0 && newLen >= bufferLen && newLen >= bufferPos + CHAR_SIZE
      requires newLen <= SIZE_MAX
      modifies this
      ensures Valid() && Contents() == old(Contents()) && fresh(buffer)
      ensures buffer != null && bufferLen == newLen && bufferPos == old(bufferPos)
    {
      var grown := new wchar[newLen / CHAR_SIZE](_ => 0);
      if buffer != null {
        forall i | 0 <= i < buffer.Length {
          grown[i] := buffer[i];
        }
      }
      assert Contents() == grown[..bufferPos / CHAR_SIZE];
      buffer := grown;
      bufferLen := newLen;
    }

    method Store(addition: wchar)
      requires Valid() && buffer != null && bufferPos + 2 * CHAR_SIZE <= bufferLen
      modifies this, buffer
      ensures Valid() && Contents() == old(Contents()) + [addition]
      ensures buffer == old(buffer) && bufferPos == old(bufferPos) + CHAR_SIZE && bufferLen == old(bufferLen)
    {
      var newIndex := bufferPos / CHAR_SIZE;
      buffer[newIndex] := addition;
      bufferPos := bufferPos + CHAR_SIZE;
    }

    /**
     * Appends one character, or fails and leaves everything as it was: when a size would overflow, or when the buffer
     * is full and the heap has no block of the new length.
     */
    method AppendToBuffer(addition: wchar, heap: nat -> bool) returns (ok: bool)
      requires Valid()
      modifies this, buffer
      ensures Valid()
      ensures buffer == old(buffer) || fresh(buffer)
      ensures ok == Grows(heap, old(bufferLen), old(bufferPos) + CHAR_SIZE)
      ensures Contents() == if ok then old(Contents()) + [addition] else old(Contents())
      ensures bufferLen == if ok then GrownTo(old(bufferLen), old(bufferPos) + CHAR_SIZE) else old(bufferLen)
    {
      hide Contents, Valid;
      Sizes();
      var newPos := bufferPos + CHAR_SIZE;
      if newPos > SIZE_MAX {
        return false;
      }
      if newPos >= bufferLen {
        var newLen := newPos * 3;
        if newLen > SIZE_MAX {
          return false;
        }
        if !heap(newLen) {
          return false;
        }
        Reallocate(newLen);
      }
      Store(addition);
      ok := true;
    }

    /** The same, telling what comes of it for all that is still to be appended. */
    method Append(addition: wchar, heap: nat -> bool) returns (ok: bool)
      requires Valid()
      modifies this, buffer
      ensures Valid() && (buffer == old(buffer) || fresh(buffer))
      ensures Contents() == if ok then old(Contents()) + [addition] else old(Contents())
      ensures Outcome(heap, old(bufferLen), |old(Contents())|, 1, ok, bufferLen)
    {
      hide Contents, Valid, Outcome;
      Sizes();
      OneMore(heap, bufferLen, bufferPos);
      ok := AppendToBuffer(addition, heap);
    }

    /** The k loops: a run of backslashes. */
    method AppendBackslashes(count: nat, heap: nat -> bool) returns (ok: bool)
      requires Valid()
      modifies this, buffer
      ensures Valid() && (buffer == old(buffer) || fresh(buffer))
      ensures ok ==> Contents() == old(Contents()) + Backslashes(count)
      ensures Outcome(heap, old(bufferLen), |old(Contents())|, count, ok, bufferLen)
    {
      hide Outcome, Room;
      var k := 0;
      assert Contents() == old(Contents()) + Backslashes(0);
      Holds(heap);
      while k < count
        invariant 0 <= k <= count
        invariant Valid() && (buffer == old(buffer) || fresh(buffer))
        invariant Contents() == old(Contents()) + Backslashes(k)
        invariant Outcome(heap, old(bufferLen), |old(Contents())|, k, true, bufferLen)
      {
        assert Backslashes(k) + [BACKSLASH] == Backslashes(k + 1);
        ghost var len := bufferLen;
        ok := Append(BACKSLASH, heap);
        OutcomeThen(heap, old(bufferLen), |old(Contents())|, k, len, 1, ok, bufferLen);
        if !ok {
          OutcomeFails(heap, old(bufferLen), |old(Contents())|, k + 1, count, bufferLen, bufferLen);
          return;
        }
        k := k + 1;
      }
      ok := true;
    }

    /** What a turn of the j loop appends: a run of backslashes and the character that ends it. */
    method AppendTurn(count: nat, c: wchar, heap: nat -> bool) returns (ok: bool)
      requires Valid()
      modifies this, buffer
      ensures Valid() && (buffer == old(buffer) || fresh(buffer))
      ensures ok ==> Contents() == old(Contents()) + (Backslashes(count) + [c])
      ensures Outcome(heap, old(bufferLen), |old(Contents())|, count + 1, ok, bufferLen)
    {
      hide Valid, Backslashes, Outcome, Contents;
      ok := AppendBackslashes(count, heap);
      if ok {
        ghost var len := bufferLen;
        ok := Append(c, heap);
        OutcomeThen(heap, old(bufferLen), |old(Contents())|, count, len, 1, ok, bufferLen);
      } else {
        OutcomeFails(heap, old(bufferLen), |old(Contents())|, count, count + 1, bufferLen, bufferLen);
      }
    }

    /** A whole turn of the j loop from index start, and whether the argument ended with it. */
    method AppendFrom(arg: seq<wchar>, start: nat, heap: nat -> bool)
      returns (ok: bool, j: nat, ghost written: seq<wchar>)
      requires Valid() && start <= |arg|
      modifies this, buffer
      ensures Valid() && (buffer == old(buffer) || fresh(buffer))
      ensures start <= j <= |arg|
      ensures Escape(arg[start..]) == written + (if j < |arg| then Escape(arg[j + 1..]) else [])
      ensures ok ==> Contents() == old(Contents()) + written
      ensures Outcome(heap, old(bufferLen), |old(Contents())|, |written|, ok, bufferLen)
    {
      hide Backslashes, Escape, Run, Valid, Contents, Outcome;
      var backslashes;
      j, backslashes := SkipBackslashes(arg, start);
      if j >= |arg| {
        EscapeEnds(arg[start..]);
        written := Backslashes(backslashes * 2);
        ok := AppendBackslashes(backslashes * 2, heap);
      } else {
        EscapeTurnAt(arg, start, j);
        var count := if arg[j] == QUOTE then backslashes * 2 + 1 else backslashes;
        written := Backslashes(count) + [arg[j]];
        ok := AppendTurn(count, arg[j], heap);
      }
    }

    /** The j loop: one argument without its quotes. */
    method AppendEscaped(arg: seq<wchar>, heap: nat -> bool) returns (ok: bool)
      requires Valid()
      modifies this, buffer
      ensures Valid() && (buffer == old(buffer) || fresh(buffer))
      ensures ok ==> Contents() == old(Contents()) + Escape(arg)
      ensures Outcome(heap, old(bufferLen), |old(Contents())|, |Escape(arg)|, ok, bufferLen)
    {
      hide Escape, Run, Valid, Contents, Outcome;
      var j := 0;
      ghost var written: seq<wchar> := [];
      assert arg[0..] == arg;
      Holds(heap);
      while true
        invariant 0 <= j <= |arg|
        invariant Valid() && (buffer == old(buffer) || fresh(buffer))
        invariant Contents() == old(Contents()) + written
        invariant written + Escape(arg[j..]) == Escape(arg)
        invariant Outcome(heap, old(bufferLen), |old(Contents())|, |written|, true, bufferLen)
        decreases |arg| - j
      {
        ghost var piece;
        ghost var before, len := written, bufferLen;
        ok, j, piece := AppendFrom(arg, j, heap);
        written := before + piece;
        OutcomeThen(heap, old(bufferLen), |old(Contents())|, |before|, len, |piece|, ok, bufferLen);
        assert written + (if j < |arg| then Escape(arg[j + 1..]) else []) == Escape(arg);
        if !ok {
          OutcomeFails(heap, old(bufferLen), |old(Contents())|, |written|, |Escape(arg)|, bufferLen, bufferLen);
          return;
        }
        if j >= |arg| {
          break;
        }
        j := j + 1;
      }
    }
  }

  /** One character more: the buffer triples if it is full. */
  lemma {:induction false} OneMore(heap: nat -> bool, len: nat, pos: nat)
    requires pos % CHAR_SIZE == 0 && len % CHAR_SIZE == 0
    requires (pos == len == 0) || pos + CHAR_SIZE <= len <= SIZE_MAX
    ensures var ok := Grows(heap, len, pos + CHAR_SIZE);
      Outcome(heap, len, pos / CHAR_SIZE, 1, ok, if ok then GrownTo(len, pos + CHAR_SIZE) else len)
  {
    var newPos, chars := pos + CHAR_SIZE, pos / CHAR_SIZE + 1;
    assert CHAR_SIZE * chars == newPos;
    if newPos >= len {
      assert 3 * (if len == 0 then CHAR_SIZE else len) == 3 * newPos;
      assert Room(heap, 3 * newPos, chars);
      forall n: nat | n >= chars
        ensures Room(heap, len, n) <==> 3 * newPos <= SIZE_MAX && heap(3 * newPos) && Room(heap, 3 * newPos, n)
      {
      }
    }
  }

  /** The inner while: counts the backslashes from j on. */
  method SkipBackslashes(arg: seq<wchar>, start: nat) returns (j: nat, backslashes: nat)
    requires start <= |arg|
    ensures j == start + backslashes <= |arg| && backslashes == Run(arg[start..])
    ensures j < |arg| ==> arg[j] != BACKSLASH
  {
    j, backslashes := start, 0;
    while j < |arg| && arg[j] == BACKSLASH
      invariant j == start + backslashes <= |arg|
      invariant forall i :: start <= i < j ==> arg[i] == BACKSLASH
    {
      j := j + 1;
      backslashes := backslashes + 1;
    }
    RunIs(arg, start, j);
  }

  lemma {:induction false} RunIs(arg: seq<wchar>, lo: nat, hi: nat)
    requires lo <= hi <= |arg|
    requires forall i :: lo <= i < hi ==> arg[i] == BACKSLASH
    requires hi < |arg| ==> arg[hi] != BACKSLASH
    ensures Run(arg[lo..]) == hi - lo
    decreases hi - lo
  {
    if lo < hi {
      RunIs(arg, lo + 1, hi);
      assert arg[lo..][1..] == arg[lo + 1..];
    }
  }

  lemma {:induction false} EscapeEnds(arg: seq<wchar>)
    requires Run(arg) == |arg|
    ensures Escape(arg) == Backslashes(2 * |arg|)
  {
  }

  lemma {:induction false} EscapeTurnAt(arg: seq<wchar>, lo: nat, hi: nat)
    requires lo <= hi < |arg| && Run(arg[lo..]) == hi - lo
    ensures var m := if arg[hi] == QUOTE then 2 * (hi - lo) + 1 else hi - lo;
      Escape(arg[lo..]) == Backslashes(m) + [arg[hi]] + Escape(arg[hi + 1..])
  {
    EscapeTurn(arg[lo..]);
    assert arg[lo..][hi - lo + 1..] == arg[hi + 1..];
  }

  /** Arguments below the builder's limit take less than 2^31 bytes encoded, so no count of it overflows. */
  lemma {:induction false} ShortArgumentsFit(arg: seq<wchar>)
    requires |arg| < 0xFFFF_FFFF / 8
    ensures CHAR_SIZE * |QuoteArgument(arg)| < 0x8000_0000
  {
    QuoteBounds(arg);
  }

  /**
   * The builder: what it returns is the command line of the arguments followed by zeroes, at least one of them,
   * although no terminator is ever written. It succeeds if and only if there are arguments, none is too long, and the
   * heap has a block for each growth of the buffer up to the size of the command line.
   */
  method ArgvToCommandLine(args: seq<seq<wchar>>, heap: nat -> bool) returns (out: array?<wchar>)
    ensures out != null ==>
      && |CommandLineOf(args)| < out.Length
      && out[..|CommandLineOf(args)|] == CommandLineOf(args)
      && forall i :: |CommandLineOf(args)| <= i < out.Length ==> out[i] == 0
    ensures out != null <==>
      && args != []
      && (forall i :: 0 <= i < |args| ==> |args[i]| < 0xFFFF_FFFF / 8)
      && Room(heap, 0, |CommandLineOf(args)|)
  {
    hide CommandLineOf, Escape, Room, Outcome;
    var output := new CommandLineBuffer();
    var i := 0;
    assert args[..0] == [];
    NoArguments();
    output.Holds(heap);
    while i < |args|
      invariant 0 <= i <= |args|
      invariant fresh(output) && output.Valid() && (output.buffer == null || fresh(output.buffer))
      invariant i == 0 ==> output.buffer == null
      invariant output.Contents() == CommandLineOf(args[..i])
      invariant forall k :: 0 <= k < i ==> |args[k]| < MAX_ARGUMENT
      invariant Outcome(heap, 0, 0, |CommandLineOf(args[..i])|, true, output.bufferLen)
    {
      if |args[i]| >= MAX_ARGUMENT {
        return null;
      }
      CommandLineGrows(args, i);
      ghost var chars, more, len := |CommandLineOf(args[..i])|, |CommandLineOf(args[..i + 1])|, output.bufferLen;
      var ok := AppendQuoted(output, i > 0, args[i], heap);
      OutcomeThen(heap, 0, 0, chars, len, more - chars, ok, output.bufferLen);
      if !ok {
        OutcomeFails(heap, 0, 0, more, |CommandLineOf(args)|, output.bufferLen, output.bufferLen);
        OutcomeTells(heap, |CommandLineOf(args)|, ok, output.bufferLen);
        return null;
      }
      i := i + 1;
    }
    assert args[..|args|] == args;
    OutcomeTells(heap, |CommandLineOf(args)|, true, output.bufferLen);
    if args != [] {
      CommandLineNonEmpty(args);
    }
    out := output.buffer;
  }

  lemma {:induction false} OutcomeTells(heap: nat -> bool, chars: nat, ok: bool, len: nat)
    requires Outcome(heap, 0, 0, chars, ok, len)
    ensures ok <==> Room(heap, 0, chars)
  {
    hide Room;
  }

  /** One argument of the i loop: its separator, its quotes and its characters. */
  method AppendQuoted(output: CommandLineBuffer, separate: bool, arg: seq<wchar>, heap: nat -> bool)
    returns (ok: bool)
    requires output.Valid()
    modifies output, output.buffer
    ensures output.Valid() && (output.buffer == old(output.buffer) || fresh(output.buffer))
    ensures ok ==> output.Contents() == old(output.Contents()) + (if separate then [SPACE] else []) + QuoteArgument(arg)
    ensures Outcome(heap, old(output.bufferLen), |old(output.Contents())|,
                    (if separate then 1 else 0) + |QuoteArgument(arg)|, ok, output.bufferLen)
  {
    hide Escape, Outcome, Room, output.Valid, output.Contents;
    ghost var len0, n0 := output.bufferLen, |output.Contents()|;
    ghost var total := (if separate then 1 else 0) + |QuoteArgument(arg)|;
    ghost var start := output.Contents() + (if separate then [SPACE] else []);
    output.Holds(heap);
    ok := true;
    if separate {
      ok := output.Append(SPACE, heap);
      if !ok {
        OutcomeFails(heap, len0, n0, 1, total, output.bufferLen, output.bufferLen);
        return;
      }
    }
    assert output.Contents() == start;
    ghost var count, len := if separate then 1 else 0, output.bufferLen;
    ok := output.Append(QUOTE, heap);
    OutcomeThen(heap, len0, n0, count, len, 1, ok, output.bufferLen);
    if !ok {
      OutcomeFails(heap, len0, n0, count + 1, total, output.bufferLen, output.bufferLen);
      return;
    }
    len := output.bufferLen;
    ok := output.AppendEscaped(arg, heap);
    OutcomeThen(heap, len0, n0, count + 1, len, |Escape(arg)|, ok, output.bufferLen);
    if !ok {
      OutcomeFails(heap, len0, n0, count + 1 + |Escape(arg)|, total, output.bufferLen, output.bufferLen);
      return;
    }
    len := output.bufferLen;
    ok := output.Append(QUOTE, heap);
    OutcomeThen(heap, len0, n0, count + 1 + |Escape(arg)|, len, 1, ok, output.bufferLen);
    Regroup(start, [QUOTE], Escape(arg), [QUOTE]);
  }

  lemma {:induction false} NoArguments()
    ensures CommandLineOf([]) == []
  {
  }

  lemma {:induction false} CommandLineNonEmpty(args: seq<seq<wchar>>)
    requires args != []
    ensures |CommandLineOf(args)| > 0
  {
  }

  lemma {:induction false} CommandLineGrows(args: seq<seq<wchar>>, i: nat)
    requires i < |args|
    ensures CommandLineOf(args[..i + 1])
      == CommandLineOf(args[..i]) + (if i > 0 then [SPACE] else []) + QuoteArgument(args[i])
    ensures |CommandLineOf(args[..i + 1])| <= |CommandLineOf(args)|
    decreases |args| - i
  {
    var front := args[..i + 1];
    assert front[..|front| - 1] == args[..i] && front[|front| - 1] == args[i];
    if i + 1 < |args| {
      CommandLineGrows(args, i + 1);
    } else {
      assert front == args;
    }
  }

  /** The string that C code reads from a buffer. */
  function CString(s: seq<wchar>): (t: seq<wchar>)
    ensures t <= s && 0 !in t
  {
    if s == [] || s[0] == 0 then [] else [s[0]] + CString(s[1..])
  }

  lemma {:induction false} CStringOf(s: seq<wchar>, t: seq<wchar>)
    requires |t| < |s| && s[..|t|] == t && s[|t|] == 0 && 0 !in t
    ensures CString(s) == t
  {
    if t != [] {
      assert s[0] == t[0] && t[0] in t;
      assert s[1..][..|t| - 1] == t[1..];
      CStringOf(s[1..], t[1..]);
    }
  }

  /** End to end: whoever reads the buffer as a C string and splits it gets the arguments the builder was given. */
  lemma {:induction false} ReaderGetsArguments(args: seq<seq<wchar>>, out: seq<wchar>)
    requires forall i :: 0 <= i < |args| ==> 0 !in args[i]
    requires |CommandLineOf(args)| < |out| && out[..|CommandLineOf(args)|] == CommandLineOf(args)
    requires forall i :: |CommandLineOf(args)| <= i < |out| ==> out[i] == 0
    ensures ParseCommandLine(CString(out)) == args
  {
    CommandLineIsNulFree(args);
    CStringOf(out, CommandLineOf(args));
    CommandLineRoundTrip(args);
  }
}
