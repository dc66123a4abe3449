/**
 * The reference specification of getcmd's tokenizer, as functions on byte
 * sequences: the C string in a buffer, the background marker, the fields that
 * strsep cuts, the truncation of each field and the resulting token list.
 */
module Tokenizer {
  import opened ShellTypes

  /** The C string a buffer holds: its bytes before the first NUL. */
  function CStr(s: seq<Byte>): (c: seq<Byte>)
    ensures |c| <= |s|
  {
    if s == [] || s[0] == Nul then [] else [s[0]] + CStr(s[1..])
  }

  /** The C string is a NUL-free prefix of the buffer, followed by NUL when shorter than it. */
  lemma {:induction false} CStrSpec(s: seq<Byte>)
    ensures CStr(s) <= s && Nul !in CStr(s)
    ensures |CStr(s)| < |s| ==> s[|CStr(s)|] == Nul
    decreases |s|
  {
    if s != [] && s[0] != Nul {
      CStrSpec(s[1..]);
    }
  }

  /** The C string is determined by the position of the first NUL. */
  lemma CStrIs(s: seq<Byte>, p: nat)
    requires p <= |s| && Nul !in s[..p]
    requires p < |s| ==> s[p] == Nul
    ensures CStr(s) == s[..p]
  {
    CStrSpec(s);
    var c := CStr(s);
    forall j | 0 <= j < p ensures s[j] != Nul {
      assert s[..p][j] == s[j];
    }
    assert |c| == p;
  }

  /** Writing NUL at q, before any other NUL, ends the C string there. */
  lemma CStrCutAt(s: seq<Byte>, q: nat)
    requires q < |s| && Nul !in s[..q]
    ensures CStr(s[q := Nul]) == s[..q]
  {
    var u := s[q := Nul];
    assert u[..q] == s[..q];
    CStrIs(u, q);
  }

  /** The delimiters given to strsep: space, tab and newline. */
  predicate IsDelimiter(b: Byte)
  {
    b == Space || b == Tab || b == Newline
  }

  /** Where strsep cuts the field that starts at i: the first delimiter from i on, or the end. */
  function FieldEnd(s: seq<Byte>, i: nat): (e: nat)
    requires i <= |s|
    ensures i <= e <= |s|
    decreases |s| - i
  {
    if i == |s| || IsDelimiter(s[i]) then i else FieldEnd(s, i + 1)
  }

  /** No delimiter lies inside the field, and a delimiter (or the end) follows it. */
  lemma {:induction false} FieldEndSpec(s: seq<Byte>, i: nat)
    requires i <= |s|
    ensures forall j :: i <= j < FieldEnd(s, i) ==> !IsDelimiter(s[j])
    ensures FieldEnd(s, i) < |s| ==> IsDelimiter(s[FieldEnd(s, i)])
    decreases |s| - i
  {
    if i < |s| && !IsDelimiter(s[i]) {
      FieldEndSpec(s, i + 1);
    }
  }

  /** FieldEnd is determined by the position of the first delimiter. */
  lemma FieldEndIs(s: seq<Byte>, i: nat, e: nat)
    requires i <= e <= |s|
    requires forall j :: i <= j < e ==> !IsDelimiter(s[j])
    requires e < |s| ==> IsDelimiter(s[e])
    ensures FieldEnd(s, i) == e
  {
    FieldEndSpec(s, i);
  }

  /** Where the field s[i..e] is cut short: its first byte at or below SPACE, or e. */
  function BlankFrom(s: seq<Byte>, i: nat, e: nat): (b: nat)
    requires i <= e <= |s|
    ensures i <= b <= e
    decreases e - i
  {
    if i == e || s[i] <= Space then i else BlankFrom(s, i + 1, e)
  }

  /** Every byte before the cut is above SPACE, and the byte at the cut (if any) is not. */
  lemma {:induction false} BlankFromSpec(s: seq<Byte>, i: nat, e: nat)
    requires i <= e <= |s|
    ensures forall j :: i <= j < BlankFrom(s, i, e) ==> s[j] > Space
    ensures BlankFrom(s, i, e) < e ==> s[BlankFrom(s, i, e)] <= Space
    decreases e - i
  {
    if i < e && s[i] > Space {
      BlankFromSpec(s, i + 1, e);
    }
  }

  /** BlankFrom is determined by the position of the first blank byte. */
  lemma BlankFromIs(s: seq<Byte>, i: nat, e: nat, b: nat)
    requires i <= b <= e <= |s|
    requires forall j :: i <= j < b ==> s[j] > Space
    requires b < e ==> s[b] <= Space
    ensures BlankFrom(s, i, e) == b
  {
    BlankFromSpec(s, i, e);
  }

  /** A field cut short at its first byte at or below SPACE. */
  function Truncate(f: seq<Byte>): seq<Byte>
  {
    f[..BlankFrom(f, 0, |f|)]
  }

  /** Truncate is determined by the position of the first blank byte. */
  lemma TruncateIs(f: seq<Byte>, p: nat)
    requires p <= |f|
    requires forall j :: 0 <= j < p ==> f[j] > Space
    requires p < |f| ==> f[p] <= Space
    ensures Truncate(f) == f[..p]
  {
    BlankFromIs(f, 0, |f|, p);
  }

  /** A token getcmd can store: non-empty, and every byte above SPACE. */
  predicate IsToken(t: seq<Byte>)
  {
    |t| > 0 && forall j :: 0 <= j < |t| ==> t[j] > Space
  }

  /**
   * The tokens of s: the strsep field s[..e] that ends at the first
   * delimiter, truncated at its first blank byte and dropped when that
   * leaves it empty, then the tokens of what follows the delimiter.
   */
  function Tokens(s: seq<Byte>): seq<seq<Byte>>
    decreases |s|
  {
    var e := FieldEnd(s, 0);
    var k := BlankFrom(s, 0, e);
    var rest := if e == |s| then [] else Tokens(s[e + 1..]);
    if k == 0 then rest else [s[..k]] + rest
  }

  /** One unfolding of Tokens, with the field end and the cut named. */
  lemma TokensUnfold(s: seq<Byte>, e: nat, k: nat)
    requires e == FieldEnd(s, 0) && k == BlankFrom(s, 0, e)
    ensures var rest := if e == |s| then [] else Tokens(s[e + 1..]);
      Tokens(s) == if k == 0 then rest else [s[..k]] + rest
  {
  }

  /** The tokens of s from index i on, where strsep's pointer stands. */
  function TokensFrom(s: seq<Byte>, i: nat): seq<seq<Byte>>
    requires i <= |s|
  {
    Tokens(s[i..])
  }

  /** One strsep step from i: the field s[i..e] ends at the first delimiter from i on. */
  lemma TokensStep(s: seq<Byte>, i: nat, e: nat)
    requires i <= e <= |s|
    requires forall j :: i <= j < e ==> !IsDelimiter(s[j])
    requires e < |s| ==> IsDelimiter(s[e])
    ensures var t, rest := Truncate(s[i..e]), if e == |s| then [] else TokensFrom(s, e + 1);
      TokensFrom(s, i) == if t == [] then rest else [t] + rest
  {
    var u, f := s[i..], s[i..e];
    var n := e - i;
    assert forall j :: 0 <= j <= n && j < |u| ==> u[j] == s[i + j];
    FieldEndIs(u, 0, n);
    var k := BlankFrom(u, 0, n);
    assert forall j :: 0 <= j < n ==> f[j] == u[j];
    assert BlankFrom(f, 0, n) == k by {
      BlankFromSpec(u, 0, n);
      BlankFromIs(f, 0, n, k);
    }
    assert Truncate(f) == u[..k] by {
      assert f[..k] == u[..k];
    }
    assert e < |s| ==> u[n + 1..] == s[e + 1..];
    TokensUnfold(u, n, k);
  }

  /** Every token is non-empty and free of blank bytes, and there are no more tokens than bytes. */
  lemma {:induction false} TokensAreTokens(s: seq<Byte>)
    ensures forall k :: 0 <= k < |Tokens(s)| ==> IsToken(Tokens(s)[k])
    ensures |Tokens(s)| <= |s|
    decreases |s|
  {
    var e := FieldEnd(s, 0);
    var k := BlankFrom(s, 0, e);
    BlankFromSpec(s, 0, e);
    if e < |s| {
      TokensAreTokens(s[e + 1..]);
    }
    TokensUnfold(s, e, k);
  }

  /** The line after the background marker is handled: its first '&' becomes a space. */
  function MarkBackground(s: seq<Byte>): seq<Byte>
  {
    match FirstIndex(s, Ampersand)
    case None => s
    case Some(p) => s[p := Space]
  }

  /** The tokens that fit in args: at most MaxInputArgs - 1 of them, the last slot staying null. */
  function FirstArgs(all: seq<seq<Byte>>): (ts: seq<seq<Byte>>)
    ensures |ts| <= MaxInputArgs - 1 && ts <= all
    ensures |ts| < MaxInputArgs - 1 ==> ts == all
  {
    if |all| <= MaxInputArgs - 1 then all else all[..MaxInputArgs - 1]
  }

  /** What getcmd stores in args: the first tokens of the marked C string. */
  function ExpectedArgs(line: seq<Byte>): (ts: seq<seq<Byte>>)
    ensures |ts| <= MaxInputArgs - 1
    ensures forall i :: 0 <= i < |ts| ==> IsToken(ts[i])
  {
    TokensAreTokens(MarkBackground(CStr(line)));
    FirstArgs(Tokens(MarkBackground(CStr(line))))
  }

  /** The args vector holding ts in its first slots and null pointers after them. */
  function ArgVector(ts: seq<seq<Byte>>): (a: seq<Arg>)
    ensures |a| == MaxInputArgs
  {
    seq(MaxInputArgs, k requires 0 <= k < MaxInputArgs => if k < |ts| then Some(ts[k]) else None)
  }

  // ---------------------------------------------------------------------------
  // Properties of the tokenizer

  /** Bytes after a delimiter that ends a's first field do not change that field or its cut. */
  lemma FieldOfPrefix(a: seq<Byte>, d: Byte, b: seq<Byte>)
    requires IsDelimiter(d)
    ensures var s, e := a + [d] + b, FieldEnd(a, 0);
      FieldEnd(s, 0) == e && BlankFrom(s, 0, e) == BlankFrom(a, 0, e) &&
      s[..BlankFrom(a, 0, e)] == a[..BlankFrom(a, 0, e)]
  {
    var s := a + [d] + b;
    var e := FieldEnd(a, 0);
    assert FieldEnd(s, 0) == e by {
      FieldEndSpec(a, 0);
      assert forall x :: 0 <= x < e ==> s[x] == a[x];
      assert e < |a| ==> s[e] == a[e];
      assert e == |a| ==> s[e] == d;
      FieldEndIs(s, 0, e);
    }
    var k := BlankFrom(a, 0, e);
    assert BlankFrom(s, 0, e) == k by {
      BlankFromSpec(a, 0, e);
      assert forall x :: 0 <= x < e ==> s[x] == a[x];
      BlankFromIs(s, 0, e, k);
    }
    assert s[..k] == a[..k] by {
      assert s[..|a|] == a;
      assert s[..|a|][..k] == s[..k];
    }
  }

  /** Order preservation: splitting at a delimiter splits the token list the same way. */
  lemma {:induction false} TokensAppend(a: seq<Byte>, d: Byte, b: seq<Byte>)
    requires IsDelimiter(d)
    ensures Tokens(a + [d] + b) == Tokens(a) + Tokens(b)
    decreases |a|
  {
    var e := FieldEnd(a, 0);
    var k := BlankFrom(a, 0, e);
    if e < |a| {
      TokensAppend(a[e + 1..], d, b);
      TokensAppendInner(a, d, b, e, k);
    } else {
      TokensAppendLast(a, d, b, k);
    }
  }

  /** The first token of the joined line, when a's first field ends at a delimiter inside a. */
  lemma FirstFieldOfJoined(a: seq<Byte>, d: Byte, b: seq<Byte>, e: nat, k: nat)
    requires IsDelimiter(d) && e == FieldEnd(a, 0) && k == BlankFrom(a, 0, e)
    ensures var s := a + [d] + b;
      Tokens(s) == (if k == 0 then [] else [a[..k]]) + Tokens(s[e + 1..])
  {
    var s := a + [d] + b;
    FieldOfPrefix(a, d, b);
    TokensUnfold(s, e, k);
  }

  /** TokensAppend when a's first field ends inside a, given TokensAppend for the rest of a. */
  lemma TokensAppendInner(a: seq<Byte>, d: Byte, b: seq<Byte>, e: nat, k: nat)
    requires IsDelimiter(d) && e == FieldEnd(a, 0) && k == BlankFrom(a, 0, e) && e < |a|
    requires Tokens(a[e + 1..] + [d] + b) == Tokens(a[e + 1..]) + Tokens(b)
    ensures Tokens(a + [d] + b) == Tokens(a) + Tokens(b)
  {
    var s := a + [d] + b;
    var a' := a[e + 1..];
    var tok: seq<seq<Byte>> := if k == 0 then [] else [a[..k]];
    FirstFieldOfJoined(a, d, b, e, k);
    TokensUnfold(a, e, k);
    DropIntoPrefix(a, d, b, e);
    AppendAssoc(tok, Tokens(a'), Tokens(b));
  }

  /** TokensAppend when a has no delimiter: a is one field, cut where the delimiter d stands. */
  lemma TokensAppendLast(a: seq<Byte>, d: Byte, b: seq<Byte>, k: nat)
    requires IsDelimiter(d) && FieldEnd(a, 0) == |a| && k == BlankFrom(a, 0, |a|)
    ensures Tokens(a + [d] + b) == Tokens(a) + Tokens(b)
  {
    var tok: seq<seq<Byte>> := if k == 0 then [] else [a[..k]];
    FirstFieldOfJoined(a, d, b, |a|, k);
    TokensUnfold(a, |a|, k);
    assert tok + [] == tok;
    DropPastDelimiter(a, d, b);
  }

  lemma DropIntoPrefix(a: seq<Byte>, d: Byte, b: seq<Byte>, e: nat)
    requires e < |a|
    ensures (a + [d] + b)[e + 1..] == a[e + 1..] + [d] + b
  {
  }

  lemma DropPastDelimiter(a: seq<Byte>, d: Byte, b: seq<Byte>)
    ensures (a + [d] + b)[|a| + 1..] == b
  {
  }

  /** Two delimiters in a row make an empty field, which yields no token and takes no slot. */
  lemma EmptyFieldsSkipped(a: seq<Byte>, d: Byte, e: Byte, b: seq<Byte>)
    requires IsDelimiter(d) && IsDelimiter(e)
    ensures Tokens(a + [d, e] + b) == Tokens(a) + Tokens(b)
  {
    assert a + [d, e] + b == a + [d] + ([e] + b);
    TokensAppend(a, d, [e] + b);
    assert [] + [e] + b == [e] + b;
    TokensAppend([], e, b);
    assert Tokens([]) == [];
  }

  /** A single token, alone on the line, comes back unchanged. */
  lemma TokensOfToken(w: seq<Byte>)
    requires IsToken(w)
    ensures Tokens(w) == [w]
  {
    FieldEndIs(w, 0, |w|);
    BlankFromIs(w, 0, |w|, |w|);
    TokensUnfold(w, |w|, |w|);
    assert w[..|w|] == w;
  }

  /** A line of blank bytes (spaces, tabs, newlines, control bytes) holds no token. */
  lemma {:induction false} NoTokensInBlankLine(s: seq<Byte>)
    requires forall j :: 0 <= j < |s| ==> s[j] <= Space
    ensures Tokens(s) == []
    decreases |s|
  {
    var e := FieldEnd(s, 0);
    BlankFromIs(s, 0, e, 0);
    if e < |s| {
      var r := s[e + 1..];
      assert forall j :: 0 <= j < |r| ==> r[j] == s[e + 1 + j];
      NoTokensInBlankLine(r);
    }
    TokensUnfold(s, e, 0);
  }
  /**
   * Truncating at the first blank byte is the same as overwriting every blank
   * byte with NUL and reading the C string: a C string ends at its first NUL.
   */
  lemma TruncateIsBlankedCStr(f: seq<Byte>)
    ensures Truncate(f) == CStr(seq(|f|, j requires 0 <= j < |f| => if f[j] <= Space then Nul else f[j]))
  {
    var g := seq(|f|, j requires 0 <= j < |f| => if f[j] <= Space then Nul else f[j]);
    var t := Truncate(f);
    BlankFromSpec(f, 0, |f|);
    assert forall j :: 0 <= j < |t| ==> g[j] == f[j];
    assert g[..|t|] == t;
    CStrIs(g, |t|);
  }

  /**
   * Only the first '&' is replaced, by a space, and every other byte stays:
   * the space count rises by one and the '&' count falls by one.
   */
  lemma MarkBackgroundReplacesFirstAmpersand(s: seq<Byte>)
    ensures |MarkBackground(s)| == |s|
    ensures forall q :: 0 <= q < |s| ==>
      MarkBackground(s)[q] == (if s[q] == Ampersand && Ampersand !in s[..q] then Space else s[q])
    ensures Ampersand !in s ==> MarkBackground(s) == s
    ensures Ampersand in s ==>
      multiset(MarkBackground(s))[Ampersand] + 1 == multiset(s)[Ampersand] &&
      multiset(MarkBackground(s))[Space] == multiset(s)[Space] + 1
    ensures forall p, q :: 0 <= p < q < |s| && s[p] == Ampersand && s[q] == Ampersand ==>
      MarkBackground(s)[q] == Ampersand
  {
    match FirstIndex(s, Ampersand)
    case None =>
    case Some(p) =>
      var m := MarkBackground(s);
      assert s == s[..p] + [Ampersand] + s[p + 1..];
      assert m == s[..p] + [Space] + s[p + 1..];
      forall q | p < q < |s| ensures m[q] == s[q] { }
      forall j | 0 <= j < p ensures s[j] != Ampersand {
        assert s[..p][j] == s[j];
      }
      forall q | 0 <= q < |s| && s[q] == Ampersand && Ampersand !in s[..q] ensures q == p { }
  }
}
