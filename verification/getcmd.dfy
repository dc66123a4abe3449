/**
 * getcmd: reads one line, detects and strips the background marker, and
 * stores the line's tokens in the args vector. The line buffer is an array
 * changed in place, as the C code changes the buffer getline allocated.
 */
module GetCmd {
  import opened ShellTypes
  import opened Tokenizer

  /** What getline delivered: end of input (or a read error), or the bytes of one line. */
  datatype ReadResult = EndOfFile | Line(bytes: seq<Byte>)

  /** How getcmd ends: the shell exits (end of input), or the number of tokens stored. */
  datatype Reply = ExitShell | Count(n: nat)

  /** strlen: the length of the C string that starts at index from. */
  function StrLen(buf: array<Byte>, from: nat): nat
    reads buf
    requires from <= buf.Length
  {
    |CStr(buf[from..])|
  }

  /**
   * strsep on the string starting at start, whose terminating NUL is at stop:
   * the field ends at the first delimiter, which is overwritten by NUL, or at
   * the terminator, in which case no string is left (next is None).
   */
  method StrSep(buf: array<Byte>, start: nat, ghost stop: nat) returns (end: nat, next: Option<nat>)
    requires start <= stop < buf.Length && buf[stop] == Nul
    requires forall q :: start <= q < stop ==> buf[q] != Nul
    modifies buf
    ensures start <= end <= stop
    ensures forall q :: start <= q < end ==> !IsDelimiter(old(buf[q]))
    ensures end < stop ==> IsDelimiter(old(buf[end]))
    ensures next.None? ==> end == stop && buf[..] == old(buf[..])
    ensures next.Some? ==> end < stop && next.value == end + 1 && buf[..] == old(buf[..])[end := Nul]
  {
    end := start;
    while buf[end] != Nul && !IsDelimiter(buf[end])
      invariant start <= end <= stop
      invariant forall q :: start <= q < end ==> !IsDelimiter(buf[q])
      decreases stop - end
    {
      end := end + 1;
    }
    if buf[end] != Nul {
      buf[end] := Nul;
      next := Some(end + 1);
    } else {
      next := None;
    }
  }

  /** After NUL is written at q, the string at start ends at q. */
  lemma StrLenAfterCut(before: seq<Byte>, start: nat, end: nat, q: nat)
    requires start <= q < end < |before| && Nul !in before[start..end]
    ensures |CStr(before[q := Nul][start..])| == q - start
  {
    var tail := before[start..];
    assert before[q := Nul][start..] == tail[q - start := Nul];
    assert tail[..q - start] == before[start..q];
    assert Nul !in before[start..q] by {
      forall k | start <= k < q ensures before[k] != Nul {
        assert before[start..end][k - start] == before[k];
      }
    }
    CStrCutAt(tail, q - start);
  }

  /** The string at start runs up to its terminator at end. */
  lemma StrLenAtTerminator(before: seq<Byte>, start: nat, end: nat)
    requires start <= end < |before| && before[end] == Nul && Nul !in before[start..end]
    ensures CStr(before[start..]) == before[start..end]
  {
    var tail := before[start..];
    assert tail[..end - start] == before[start..end];
    CStrIs(tail, end - start);
  }

  /** How the token reads once the loop over it ends, cut (at q) or not. */
  lemma CutResult(before: seq<Byte>, start: nat, end: nat, q: nat, cut: bool)
    requires start <= q <= end < |before| && before[end] == Nul && Nul !in before[start..end]
    requires forall k :: start <= k < q ==> before[k] > Space
    requires cut ==> q < end && before[q] <= Space
    requires !cut ==> q == end
    ensures CStr((if cut then before[q := Nul] else before)[start..]) == Truncate(before[start..end])
  {
    var field := before[start..end];
    TruncateIs(field, q - start);
    assert field[..q - start] == before[start..q];
    if cut {
      StrLenAfterCut(before, start, end, q);
      var after := before[q := Nul][start..];
      assert after[..q - start] == before[start..q];
      CStrSpec(after);
    } else {
      StrLenAtTerminator(before, start, end);
    }
  }

  /**
   * The inner loop's state at j over the bytes before it ran: no cut yet,
   * every byte before j above SPACE and strlen still reaching the terminator
   * at end; or the cut made at j - 1, where strlen now stops.
   */
  ghost predicate CutState(buf: array<Byte>, before: seq<Byte>, start: nat, end: nat, j: nat, cut: bool)
    reads buf
  {
    start <= j <= end < |before| == buf.Length &&
    (!cut ==>
       buf[..] == before && StrLen(buf, start) == end - start &&
       forall k :: start <= k < j ==> before[k] > Space) &&
    (cut ==>
       start < j && before[j - 1] <= Space && buf[..] == before[j - 1 := Nul] &&
       StrLen(buf, start) == j - 1 - start &&
       forall k :: start <= k < j - 1 ==> before[k] > Space)
  }

  /** A byte above SPACE is passed over. */
  lemma CutStepKeep(buf: array<Byte>, before: seq<Byte>, start: nat, end: nat, j: nat)
    requires CutState(buf, before, start, end, j, false) && j < end && buf[j] > Space
    ensures CutState(buf, before, start, end, j + 1, false)
  {
  }

  /** The first blank byte, once overwritten by NUL, ends the string there. */
  lemma CutStepBlank(buf: array<Byte>, before: seq<Byte>, start: nat, end: nat, j: nat)
    requires start <= j < end < |before| == buf.Length && Nul !in before[start..end]
    requires forall k :: start <= k < j ==> before[k] > Space
    requires before[j] <= Space && buf[..] == before[j := Nul]
    ensures CutState(buf, before, start, end, j + 1, true)
  {
    StrLenAfterCut(before, start, end, j);
    assert buf[start..] == before[j := Nul][start..];
  }

  /** The inner loop changes no byte outside the token. */
  lemma CutFrame(buf: array<Byte>, before: seq<Byte>, start: nat, end: nat, j: nat, cut: bool)
    requires CutState(buf, before, start, end, j, cut)
    ensures forall k :: 0 <= k < buf.Length && !(start <= k < end) ==> buf[k] == before[k]
  {
  }

  /**
   * The inner loop of getcmd over one token: it compares each byte with SPACE
   * while the index is below strlen(token), which it recomputes on every
   * iteration; so the first blank byte, once overwritten by NUL, ends the loop.
   */
  method CutAtBlank(buf: array<Byte>, start: nat, ghost end: nat)
    requires start <= end < buf.Length && buf[end] == Nul && Nul !in buf[start..end]
    modifies buf
    ensures CStr(buf[start..]) == Truncate(old(buf[start..end]))
    ensures forall k :: 0 <= k < buf.Length && !(start <= k < end) ==> buf[k] == old(buf[k])
  {
    ghost var before := buf[..];
    StrLenAtTerminator(before, start, end);
    assert before[start..end] == buf[start..end];
    ghost var cut := false;
    var j := start;
    while j < start + StrLen(buf, start)
      invariant CutState(buf, before, start, end, j, cut)
      decreases end - j
    {
      if buf[j] <= Space {
        buf[j] := Nul;
        CutStepBlank(buf, before, start, end, j);
        cut := true;
      } else {
        CutStepKeep(buf, before, start, end, j);
      }
      j := j + 1;
    }
    CutResult(before, start, end, if cut then j - 1 else end, cut);
    CutFrame(buf, before, start, end, j, cut);
  }

  /** The bookkeeping of one strsep step: the field's token, if any, moves from pending to toks. */
  lemma AdvanceTokens(all: seq<seq<Byte>>, toks: seq<seq<Byte>>, pending: seq<seq<Byte>>,
                      t: seq<Byte>, rest: seq<seq<Byte>>)
    requires all == toks + pending
    requires pending == if t == [] then rest else [t] + rest
    ensures all == (if t == [] then toks else toks + [t]) + rest
  {
    if t != [] {
      AppendAssoc(toks, [t], rest);
    }
  }

  /** The C string at start, read back as a slice of the buffer. */
  lemma CStrSlice(s: seq<Byte>, start: nat)
    requires start <= |s|
    ensures start + |CStr(s[start..])| <= |s|
    ensures s[start..start + |CStr(s[start..])|] == CStr(s[start..])
  {
    var c := CStr(s[start..]);
    CStrSpec(s[start..]);
    assert s[start..][..|c|] == s[start..start + |c|];
  }

  /** The tokens stored when the loop stops: all of them, or the first MaxInputArgs - 1. */
  lemma FirstArgsOfAll(all: seq<seq<Byte>>, toks: seq<seq<Byte>>, pending: seq<seq<Byte>>)
    requires all == toks + pending && |toks| <= MaxInputArgs - 1
    requires pending == [] || |toks| == MaxInputArgs - 1
    ensures FirstArgs(all) == toks
  {
    if pending != [] {
      assert all[..MaxInputArgs - 1] == toks;
    }
  }

  /** The args slots hold ts, in order, and null pointers after them. */
  ghost predicate StoredArgs(a: seq<Arg>, ts: seq<seq<Byte>>)
  {
    |a| == MaxInputArgs && |ts| <= MaxInputArgs &&
    (forall q :: 0 <= q < |ts| ==> a[q] == Some(ts[q])) &&
    (forall q :: |ts| <= q < MaxInputArgs ==> a[q] == None)
  }

  /** An args vector holding ts and then null pointers is ArgVector(ts). */
  lemma ArgVectorIs(a: seq<Arg>, ts: seq<seq<Byte>>)
    requires StoredArgs(a, ts)
    ensures a == ArgVector(ts)
  {
  }

  /**
   * A position tag. A fact stated for every p tagged At(p) is drawn on only
   * where a proof names At(p) for the position it is about.
   */
  ghost predicate At(p: nat)
  {
    true
  }

  /**
   * pending is the token list of m from cur on. It is stated through At, so
   * that the token list is unfolded only in the proofs that name At(cur).
   */
  ghost predicate PendingFrom(m: seq<Byte>, cur: nat, pending: seq<seq<Byte>>)
  {
    forall p: nat {:trigger At(p)} :: At(p) && p == cur ==> p <= |m| && pending == TokensFrom(m, p)
  }

  /**
   * One strsep step over the field m[cur..end]: its token, if any, moves from
   * pending to the stored tokens, and rest is what is left pending after it.
   */
  lemma AdvancePending(m: seq<Byte>, cur: nat, end: nat, all: seq<seq<Byte>>, toks: seq<seq<Byte>>,
                       pending: seq<seq<Byte>>)
    returns (rest: seq<seq<Byte>>)
    requires cur <= end <= |m|
    requires forall q :: cur <= q < end ==> !IsDelimiter(m[q])
    requires end < |m| ==> IsDelimiter(m[end])
    requires all == toks + pending && PendingFrom(m, cur, pending)
    ensures var t := Truncate(m[cur..end]); all == (if t == [] then toks else toks + [t]) + rest
    ensures end == |m| ==> rest == []
    ensures end < |m| ==> PendingFrom(m, end + 1, rest)
  {
    assert At(cur);
    var t := Truncate(m[cur..end]);
    rest := if end == |m| then [] else TokensFrom(m, end + 1);
    TokensStep(m, cur, end);
    AdvanceTokens(all, toks, pending, t, rest);
  }

  /** The part of the line from cur on is still in buf as it was read, NUL-terminated. */
  ghost predicate Unconsumed(buf: array<Byte>, m: seq<Byte>, cur: nat)
    reads buf
  {
    cur <= |m| < buf.Length && buf[|m|] == Nul &&
    forall q :: cur <= q < |m| ==> buf[q] == m[q] && m[q] != Nul
  }

  /** Storing the next token (if any) keeps args equal to the stored tokens followed by nulls. */
  lemma ArgsStep(a0: seq<Arg>, a1: seq<Arg>, toks: seq<seq<Byte>>, t: seq<Byte>, toks': seq<seq<Byte>>)
    requires StoredArgs(a0, toks) && |toks| < MaxInputArgs
    requires t == [] ==> a1 == a0 && toks' == toks
    requires t != [] ==> a1 == a0[|toks| := Some(t)] && toks' == toks + [t]
    ensures StoredArgs(a1, toks')
  {
  }

  /**
   * The body of the strsep loop for one field buf[start..end] (NUL at end):
   * the field is cut at its first blank byte, and when something is left it
   * is copied into args[i] and i is advanced.
   */
  method StoreToken(buf: array<Byte>, start: nat, ghost end: nat, args: array<Arg>, i: nat)
    returns (i': nat)
    requires start <= end < buf.Length && buf[end] == Nul && Nul !in buf[start..end]
    requires i < args.Length
    modifies buf, args
    ensures var t := Truncate(old(buf[start..end]));
      (t == [] ==> i' == i && args[..] == old(args[..])) &&
      (t != [] ==> i' == i + 1 && args[..] == old(args[..])[i := Some(t)])
    ensures forall k :: 0 <= k < buf.Length && !(start <= k < end) ==> buf[k] == old(buf[k])
  {
    CutAtBlank(buf, start, end);
    var len := StrLen(buf, start);
    CStrSlice(buf[..], start);
    assert buf[..][start..] == buf[start..];
    i' := i;
    if len > 0 {
      args[i] := Some(buf[start..start + len]);
      i' := i + 1;
    }
  }

  /**
   * One pass of the strsep loop over the line m, from start: strsep cuts the
   * next field; when MaxInputArgs - 1 tokens are already stored the loop
   * stops (full), otherwise the field's token, if any, is stored.
   */
  method SepAndStore(buf: array<Byte>, start: nat, ghost m: seq<Byte>, args: array<Arg>, i: nat)
    returns (end: nat, next: Option<nat>, i': nat, full: bool)
    requires Unconsumed(buf, m, start)
    requires args.Length == MaxInputArgs && i <= MaxInputArgs - 1
    modifies buf, args
    ensures start <= end <= |m|
    ensures forall q :: start <= q < end ==> !IsDelimiter(m[q])
    ensures end < |m| ==> IsDelimiter(m[end])
    ensures next.None? ==> end == |m|
    ensures next.Some? ==> end < |m| && next.value == end + 1
    ensures full <==> i >= MaxInputArgs - 1
    ensures full ==> args[..] == old(args[..])
    ensures !full ==> var t := Truncate(m[start..end]);
      (t == [] ==> i' == i && args[..] == old(args[..])) &&
      (t != [] ==> i' == i + 1 && args[..] == old(args[..])[i := Some(t)])
    ensures next.Some? ==> Unconsumed(buf, m, end + 1)
  {
    ghost var before := buf[..];
    end, next := StrSep(buf, start, |m|);
    full := i >= MaxInputArgs - 1;
    i' := i;
    if !full {
      assert buf[start..end] == m[start..end];
      assert Nul !in buf[start..end] by {
        forall q | start <= q < end ensures buf[q] != Nul {
          assert buf[q] == before[q];
        }
      }
      i' := StoreToken(buf, start, end, args, i);
    }
  }

  /**
   * The strsep loop of getcmd over the marked line m, held in buf[..z] with
   * its terminator at z: it stores tokens in args, in order, until no string
   * is left or MaxInputArgs - 1 tokens are stored.
   */
  method SplitIntoArgs(buf: array<Byte>, ghost z: nat, args: array<Arg>) returns (i: nat)
    requires z < buf.Length && buf[z] == Nul
    requires forall q :: 0 <= q < z ==> buf[q] != Nul
    requires args.Length == MaxInputArgs
    requires forall q :: 0 <= q < MaxInputArgs ==> args[q] == None
    modifies buf, args
    ensures args[..] == ArgVector(FirstArgs(Tokens(old(buf[..z]))))
    ensures i == |FirstArgs(Tokens(old(buf[..z])))|
  {
    ghost var m := buf[..z];
    ghost var all := Tokens(m);
    i := 0;
    var cur := 0;
    var more := true;
    ghost var toks: seq<seq<Byte>> := [];
    ghost var pending := TokensFrom(m, 0);
    assert m[0..] == m;
    ghost var stored := args[..];
    assert Unconsumed(buf, m, 0);
    assert StoredArgs(stored, toks);
    while true
      invariant 0 <= i <= MaxInputArgs - 1 && |toks| == i
      invariant more ==> Unconsumed(buf, m, cur)
      invariant args[..] == stored && StoredArgs(stored, toks)
      invariant all == toks + pending
      invariant more ==> PendingFrom(m, cur, pending)
      invariant !more ==> pending == []
      decreases if more then z + 1 - cur else 0
    {
      if !more {
        break;
      }
      var end, next, i', full := SepAndStore(buf, cur, m, args, i);
      if full {
        break;
      }
      ghost var t := Truncate(m[cur..end]);
      ghost var rest := AdvancePending(m, cur, end, all, toks, pending);
      ghost var toks' := if t == [] then toks else toks + [t];
      ArgsStep(stored, args[..], toks, t, toks');
      toks, pending, stored := toks', rest, args[..];
      if next.None? {
        more := false;
      } else {
        cur := end + 1;
      }
      i := i';
    }
    FirstArgsOfAll(all, toks, pending);
    ArgVectorIs(stored, toks);
  }

  /**
   * The background check of getcmd on the C string buf[..z]: index finds the
   * first '&', which becomes a space, and the flag says whether there was one.
   */
  method MarkBackgroundInPlace(buf: array<Byte>, ghost z: nat) returns (bg: int)
    requires z < buf.Length && buf[z] == Nul && Nul !in buf[..z]
    modifies buf
    ensures bg == if Ampersand in old(buf[..z]) then 1 else 0
    ensures buf[..z] == MarkBackground(old(buf[..z]))
    ensures buf[z] == Nul && forall q :: 0 <= q < z ==> buf[q] != Nul
  {
    ghost var s := buf[..z];
    CStrIs(buf[..], z);
    assert buf[..][..z] == s;
    var amp := FirstIndex(CStr(buf[..]), Ampersand);
    if amp.Some? {
      bg := 1;
      buf[amp.value] := Space;
    } else {
      bg := 0;
    }
    assert buf[..z] == MarkBackground(s);
    forall q | 0 <= q < z ensures buf[q] != Nul {
      assert buf[q] == s[q] || buf[q] == Space;
    }
  }

  /**
   * getcmd on a line of n > 0 bytes: the buffer is the line followed by the
   * NUL getline appends; the first '&' of its C string becomes a space (bg is
   * 1, else 0), every slot of args is cleared, and the strsep loop stores the
   * tokens; n is their number.
   */
  method SplitLine(line: seq<Byte>, args: array<Arg>) returns (n: nat, bg: int)
    requires line != [] && args.Length == MaxInputArgs
    modifies args
    ensures bg == if Ampersand in CStr(line) then 1 else 0
    ensures n == |ExpectedArgs(line)| && args[..] == ArgVector(ExpectedArgs(line))
  {
    var buf := new Byte[|line| + 1](k => if 0 <= k < |line| then line[k] else Nul);
    ghost var s := CStr(line);
    ghost var z := |s|;
    assert buf[..z] == s && buf[z] == Nul by {
      assert buf[..] == line + [Nul];
      CStrSpec(line);
      CStrIs(buf[..], z);
    }

    CStrSpec(line);
    bg := MarkBackgroundInPlace(buf, z);
    ghost var m := buf[..z];
    assert m == MarkBackground(CStr(line));

    // Every slot of args is cleared; ArgsAsWritten models the shorter memset
    forall k | 0 <= k < args.Length {
      args[k] := None;
    }

    assert buf[..z] == m;
    n := SplitIntoArgs(buf, z, args);
    assert FirstArgs(Tokens(m)) == ExpectedArgs(line);
  }

  /**
   * getcmd. bgIn is the caller's *background before the call; bg is its
   * value after. End of input makes the shell exit; a read of 0 bytes
   * returns 0 and leaves args and the flag alone.
   */
  method GetCmd(input: ReadResult, args: array<Arg>, bgIn: int) returns (r: Reply, bg: int)
    requires args.Length == MaxInputArgs
    modifies args
    ensures input.EndOfFile? ==> r == ExitShell && args[..] == old(args[..])
    ensures input == Line([]) ==> r == Count(0) && bg == bgIn && args[..] == old(args[..])
    ensures input.Line? && input.bytes != [] ==>
      bg == (if Ampersand in CStr(input.bytes) then 1 else 0) &&
      r == Count(|ExpectedArgs(input.bytes)|) &&
      args[..] == ArgVector(ExpectedArgs(input.bytes))
  {
    bg := bgIn;
    if input.EndOfFile? {
      return ExitShell, bg;
    }
    if |input.bytes| == 0 {
      return Count(0), bg;
    }
    var n;
    n, bg := SplitLine(input.bytes, args);
    r := Count(n);
  }

  /** getcmd stores at most MAX_INPUT_ARGS - 1 tokens: the last slot of args stays null. */
  lemma LastSlotUnused(line: seq<Byte>)
    ensures |ExpectedArgs(line)| <= MaxInputArgs - 1
    ensures ArgVector(ExpectedArgs(line))[MaxInputArgs - 1] == None
  {
  }

  // ---------------------------------------------------------------------------
  // The clearing of args as written

  /** Bytes in a pointer on the LP64 targets the shell is built for. */
  const PointerSize: nat := 8

  /** memset(args, 0, MAX_INPUT_ARGS) counts bytes: only this many whole slots are cleared. */
  const ClearedSlots: nat := MaxInputArgs / PointerSize

  /**
   * args after getcmd as written stored ts over the vector prev left by the
   * previous command: the first ClearedSlots slots are cleared, the others
   * keep their old pointers unless a token overwrites them. Slot
   * ClearedSlots has its low half cleared as well; the model keeps its old
   * value.
   */
  function ArgsAsWritten(prev: seq<Arg>, ts: seq<seq<Byte>>): (a: seq<Arg>)
    requires |prev| == MaxInputArgs && |ts| <= MaxInputArgs - 1
    ensures |a| == MaxInputArgs
  {
    seq(MaxInputArgs, k requires 0 <= k < MaxInputArgs =>
      if k < |ts| then Some(ts[k]) else if k < ClearedSlots then None else prev[k])
  }

  /**
   * The args vector as written is the intended one exactly when every slot
   * past both the tokens and the cleared bytes was already null.
   */
  lemma ArgsAsWrittenAgree(prev: seq<Arg>, ts: seq<seq<Byte>>)
    requires |prev| == MaxInputArgs && |ts| <= MaxInputArgs - 1
    ensures ArgsAsWritten(prev, ts) == ArgVector(ts) <==>
      forall k :: |ts| <= k < MaxInputArgs && ClearedSlots <= k ==> prev[k] == None
  {
    var a, v := ArgsAsWritten(prev, ts), ArgVector(ts);
    if a == v {
      forall k | |ts| <= k < MaxInputArgs && ClearedSlots <= k ensures prev[k] == None {
        assert a[k] == v[k];
      }
    }
  }
}
