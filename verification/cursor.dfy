/** A cursor over a token sequence: each step checks the token at a position
    and hands back the position after it, or fails the whole read. This
    replaces the source's in-place `lst.pop(0)` popping. */
module Cursor {
  import opened Wrappers
  import opened PyInt

  /** Every way a read can stop; the source raises `AssertionError`,
      `IndexError`, `ValueError` or `KeyError` for these. */
  datatype ParseError =
    | MissingIds
    | EndOfInput
    | KeywordMismatch(expected: string, found: string)
    | NotAnInteger(token: string)
    | TruncatedArc(leftover: nat)
    | IndexOutOfRange(index: int)
    | MissingLabel(id: int)

  function Max0(n: int): nat {
    if n < 0 then 0 else n
  }

  /** `assert lst[0] == kw; lst.pop(0)` */
  function ExpectKeyword(toks: seq<string>, pos: nat, kw: string): (r: Result<nat, ParseError>)
    ensures r.Success? <==> pos < |toks| && toks[pos] == kw
    ensures r.Success? ==> r.value == pos + 1
  {
    if pos >= |toks| then Failure(EndOfInput)
    else if toks[pos] != kw then Failure(KeywordMismatch(kw, toks[pos]))
    else Success(pos + 1)
  }

  /** `int(lst.pop(0))` */
  function ExpectInt(toks: seq<string>, pos: nat): (r: Result<(int, nat), ParseError>)
    ensures r.Success? <==> pos < |toks| && ParseInt(toks[pos]).Some?
    ensures r.Success? ==> ParseInt(toks[pos]) == Some(r.value.0) && r.value.1 == pos + 1
  {
    if pos >= |toks| then Failure(EndOfInput)
    else match ParseInt(toks[pos])
      case None => Failure(NotAnInteger(toks[pos]))
      case Some(x) => Success((x, pos + 1))
  }

  /** The |xs| tokens from `pos` on all convert with `int`, to `xs` in order. */
  ghost predicate IntsAt(toks: seq<string>, pos: nat, xs: seq<int>) {
    pos + |xs| <= |toks| && forall i :: 0 <= i < |xs| ==> ParseInt(toks[pos + i]) == Some(xs[i])
  }

  /** `[int(lst.pop(0)) for _ in range(n)]`: a negative `n` reads nothing. */
  function ExpectInts(toks: seq<string>, pos: nat, n: int): (r: Result<(seq<int>, nat), ParseError>)
    requires pos <= |toks|
    ensures r.Success? ==> |r.value.0| == Max0(n) && r.value.1 == pos + Max0(n) && IntsAt(toks, pos, r.value.0)
    ensures (pos + Max0(n) <= |toks| && forall i :: pos <= i < pos + Max0(n) ==> ParseInt(toks[i]).Some?)
            ==> r.Success?
    decreases Max0(n)
  {
    if n <= 0 then Success(([], pos))
    else
      var head :- ExpectInt(toks, pos);
      var tail :- ExpectInts(toks, head.1, n - 1);
      IntsAtCons(toks, pos, head.0, tail.0);
      Success(([head.0] + tail.0, tail.1))
  }

  lemma IntsAtCons(toks: seq<string>, pos: nat, x: int, xs: seq<int>)
    requires pos < |toks| && ParseInt(toks[pos]) == Some(x)
    requires IntsAt(toks, pos + 1, xs)
    ensures IntsAt(toks, pos, [x] + xs)
  {
    forall i | 0 <= i < |xs| + 1 ensures ParseInt(toks[pos + i]) == Some(([x] + xs)[i]) {
      if i > 0 {
        assert ParseInt(toks[pos + 1 + (i - 1)]) == Some(xs[i - 1]);
      }
    }
  }

  /** The values the tokens convert to are determined by the tokens. */
  lemma IntsAtUnique(toks: seq<string>, pos: nat, xs: seq<int>, ys: seq<int>)
    requires IntsAt(toks, pos, xs) && IntsAt(toks, pos, ys) && |xs| == |ys|
    ensures xs == ys
  {
    forall i | 0 <= i < |xs| ensures xs[i] == ys[i] {
      assert ParseInt(toks[pos + i]) == Some(xs[i]);
    }
  }
}
