/**
 * The echo built-in: for each slot 1..MAX_INPUT_ARGS-1 of args holding a
 * string, the string and one space are written; a newline ends the output.
 * The bytes written to standard output are returned as a sequence.
 */
module Echo {
  import opened ShellTypes
  import opened Tokenizer
  import opened GetCmd

  /** The strings held by the non-null slots, in slot order. */
  function Present(slots: seq<Arg>): (ws: seq<seq<Byte>>)
    ensures |ws| <= |slots|
  {
    if slots == [] then []
    else
      var last := slots[|slots| - 1];
      Present(slots[..|slots| - 1]) + (if last.Some? then [last.value] else [])
  }

  /** Each word followed by one space. */
  function Spaced(ws: seq<seq<Byte>>): seq<Byte>
  {
    if ws == [] then [] else ws[0] + [Space] + Spaced(ws[1..])
  }

  /** What echo writes for the vector args. args[0], the command name, is skipped. */
  function EchoOutput(args: seq<Arg>): (out: seq<Byte>)
    requires |args| == MaxInputArgs
    ensures |out| >= 1 && out[|out| - 1] == Newline
  {
    Spaced(Present(args[1..])) + [Newline]
  }

  lemma {:induction false} SpacedAppend(ws: seq<seq<Byte>>, w: seq<Byte>)
    ensures Spaced(ws + [w]) == Spaced(ws) + w + [Space]
  {
    if ws != [] {
      assert (ws + [w])[1..] == ws[1..] + [w];
      SpacedAppend(ws[1..], w);
    }
  }

  /** Present over a concatenation is the concatenation of Present. */
  lemma {:induction false} PresentAppend(s: seq<Arg>, t: seq<Arg>)
    ensures Present(s + t) == Present(s) + Present(t)
  {
    if t != [] {
      var init, last := t[..|t| - 1], t[|t| - 1];
      var x := if last.Some? then [last.value] else [];
      assert (s + t)[..|s + t| - 1] == s + init && (s + t)[|s + t| - 1] == last;
      assert Present(s + t) == Present(s + init) + x;
      assert Present(t) == Present(init) + x;
      PresentAppend(s, init);
      AppendAssoc(Present(s), Present(init), x);
    } else {
      assert s + t == s;
    }
  }

  /**
   * echo: the loop over slots 1..MAX_INPUT_ARGS-1 with its two writes per
   * string, then the newline. Each string is written up to its NUL, so the
   * strings in args are NUL-free, as getcmd's strcpy leaves them.
   */
  method Echo(args: array<Arg>) returns (out: seq<Byte>)
    requires args.Length == MaxInputArgs
    requires forall k :: 0 <= k < MaxInputArgs && args[k].Some? ==> Nul !in args[k].value
    ensures out == EchoOutput(args[..])
  {
    ghost var slots := args[..];
    out := [];
    var i := 1;
    while i < MaxInputArgs
      invariant 1 <= i <= MaxInputArgs
      invariant out == Spaced(Present(slots[1..i]))
    {
      ghost var done := Present(slots[1..i]);
      assert slots[1..i + 1][..i - 1] == slots[1..i] && slots[1..i + 1][i - 1] == slots[i] == args[i];
      if args[i] != None {
        var w := args[i].value;
        assert Present(slots[1..i + 1]) == done + [w];
        SpacedAppend(done, w);
        out := out + w;
        out := out + [Space];
      } else {
        assert Present(slots[1..i + 1]) == done + [];
        assert done + [] == done;
      }
      i := i + 1;
    }
    assert slots[1..i] == slots[1..];
    out := out + [Newline];
  }

  // ---------------------------------------------------------------------------
  // Properties of the echo output

  /** Slots 1..n-1 of the vector getcmd stores hold its tokens 1..n-1, nothing more. */
  lemma {:induction false} PresentOfArgVector(ts: seq<seq<Byte>>, n: nat)
    requires |ts| <= MaxInputArgs && 1 <= n <= MaxInputArgs
    ensures Present(ArgVector(ts)[1..n]) == if n <= |ts| then ts[1..n] else if ts == [] then [] else ts[1..]
  {
    var a := ArgVector(ts);
    if n > 1 {
      PresentOfArgVector(ts, n - 1);
      assert a[1..n][..n - 2] == a[1..n - 1];
      if n <= |ts| {
        assert ts[1..n] == ts[1..n - 1] + [ts[n - 1]];
      }
    }
  }

  /** Spaced words, read back by the tokenizer, are the words again. */
  lemma {:induction false} TokensOfSpaced(ws: seq<seq<Byte>>)
    requires forall k :: 0 <= k < |ws| ==> IsToken(ws[k])
    ensures Tokens(Spaced(ws)) == ws
  {
    if ws == [] {
      assert Tokens([]) == [];
    } else {
      TokensOfSpaced(ws[1..]);
      TokensOfToken(ws[0]);
      TokensAppend(ws[0], Space, Spaced(ws[1..]));
    }
  }

  /** Spaced tokens contain no newline and no NUL. */
  lemma {:induction false} SpacedHasNoNewline(ws: seq<seq<Byte>>)
    requires forall k :: 0 <= k < |ws| ==> IsToken(ws[k])
    ensures Newline !in Spaced(ws) && Nul !in Spaced(ws)
  {
    if ws != [] {
      SpacedHasNoNewline(ws[1..]);
      assert Newline !in ws[0] && Nul !in ws[0];
    }
  }

  /** For a vector of tokens, tokenizing what echo writes gives back the tokens after the first. */
  lemma EchoRepeatsTokens(ts: seq<seq<Byte>>)
    requires 1 <= |ts| <= MaxInputArgs - 1 && forall k :: 0 <= k < |ts| ==> IsToken(ts[k])
    ensures Tokens(EchoOutput(ArgVector(ts))) == ts[1..]
  {
    var words := ts[1..];
    PresentOfArgVector(ts, MaxInputArgs);
    assert ArgVector(ts)[1..MaxInputArgs] == ArgVector(ts)[1..];
    assert EchoOutput(ArgVector(ts)) == Spaced(words) + [Newline] + [];
    TokensOfSpaced(words);
    TokensAppend(Spaced(words), Newline, []);
    assert Tokens([]) == [];
  }

  /**
   * echo repeats its arguments: the tokenizer, run on what echo writes for
   * any command line, gives back the line's tokens after the first.
   */
  lemma EchoRepeatsArguments(line: seq<Byte>)
    requires ExpectedArgs(line) != []
    ensures Tokens(EchoOutput(ArgVector(ExpectedArgs(line)))) == ExpectedArgs(line)[1..]
  {
    EchoRepeatsTokens(ExpectedArgs(line));
  }

  /** For a vector of tokens, echo writes exactly one newline, the last byte, and no NUL. */
  lemma EchoEndsInOneNewline(ts: seq<seq<Byte>>)
    requires |ts| <= MaxInputArgs - 1 && forall k :: 0 <= k < |ts| ==> IsToken(ts[k])
    ensures var out := EchoOutput(ArgVector(ts));
      Nul !in out && forall k :: 0 <= k < |out| ==> (out[k] == Newline <==> k == |out| - 1)
  {
    var ws := Present(ArgVector(ts)[1..]);
    PresentOfArgVector(ts, MaxInputArgs);
    assert ArgVector(ts)[1..MaxInputArgs] == ArgVector(ts)[1..];
    SpacedHasNoNewline(ws);
    var out := EchoOutput(ArgVector(ts));
    forall k | 0 <= k < |out| - 1 ensures out[k] != Newline {
      assert out[k] == Spaced(ws)[k];
    }
  }

  /**
   * Stale slots reach echo when args is cleared as written: after
   * "echo a b c", the line "echo x y" overwrites slots 0 to 2 with its own
   * tokens, slot 3 keeps the old pointer to "c", and echo writes "x y c "
   * where "x y " is due. Slots 4 to 19 are taken to be null before
   * "echo a b c", as on a zeroed stack: args in main starts uninitialised
   * and the memset as written never clears them. "x y c " is written
   * before slot 4 is read whatever they hold.
   */
  lemma StaleArgsReachEcho()
    ensures var echoName, a, b, c, x, y := [101, 99, 104, 111], [97], [98], [99], [120], [121];
      var prev := ArgVector([echoName, a, b, c]);
      EchoOutput(ArgVector([echoName, x, y])) == [120, Space, 121, Space, Newline] &&
      EchoOutput(ArgsAsWritten(prev, [echoName, x, y])) == [120, Space, 121, Space, 99, Space, Newline]
  {
    var echoName: seq<Byte>, a: seq<Byte>, b: seq<Byte>, c: seq<Byte> := [101, 99, 104, 111], [97], [98], [99];
    var x: seq<Byte>, y: seq<Byte> := [120], [121];
    EchoOfTwoWords(echoName, x, y);
    StaleWords(echoName, a, b, c, x, y);
    assert Spaced([c]) == [99, Space] by {
      assert [c][1..] == [];
    }
    assert Spaced([y, c]) == [121, Space, 99, Space] by {
      assert [y, c][1..] == [c];
    }
    assert Spaced([x, y, c]) == [120, Space, 121, Space, 99, Space] by {
      assert [x, y, c][1..] == [y, c];
    }
    assert Spaced([x, y]) == [120, Space, 121, Space] by {
      assert [x, y][1..] == [y];
      assert [y][1..] == [];
    }
  }

  /** For the line "name x y", echo finds exactly the two words. */
  lemma EchoOfTwoWords(name: seq<Byte>, x: seq<Byte>, y: seq<Byte>)
    ensures Present(ArgVector([name, x, y])[1..]) == [x, y]
  {
    PresentOfArgVector([name, x, y], MaxInputArgs);
    assert ArgVector([name, x, y])[1..MaxInputArgs] == ArgVector([name, x, y])[1..];
    assert [name, x, y][1..] == [x, y];
  }

  /** The strings echo finds in the stale vector: the new two words, then the old third argument. */
  lemma StaleWords(name: seq<Byte>, a: seq<Byte>, b: seq<Byte>, c: seq<Byte>, x: seq<Byte>, y: seq<Byte>)
    ensures Present(ArgsAsWritten(ArgVector([name, a, b, c]), [name, x, y])[1..]) == [x, y, c]
  {
    var stale := ArgsAsWritten(ArgVector([name, a, b, c]), [name, x, y]);
    var nones := seq(MaxInputArgs - 4, _ => None);
    var head: seq<Arg> := [Some(x), Some(y), Some(c)];
    assert stale[1..] == head + nones;
    PresentAppend(head, nones);
    NoneIsAbsent(nones);
    assert Present(head) == [x, y, c] by {
      assert head[..2] == [Some(x), Some(y)];
      var two: seq<Arg> := [Some(x), Some(y)];
      assert two[..1] == [Some(x)];
      var one: seq<Arg> := [Some(x)];
      assert one[..0] == [];
      assert Present(one) == [x];
      assert Present(two) == [x, y];
    }
    assert [x, y, c] + [] == [x, y, c];
  }

  lemma {:induction false} NoneIsAbsent(s: seq<Arg>)
    requires forall k :: 0 <= k < |s| ==> s[k] == None
    ensures Present(s) == []
  {
    if s != [] {
      NoneIsAbsent(s[..|s| - 1]);
    }
  }
}
