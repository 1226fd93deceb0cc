/** process_path: the tokeniser that cuts a path buffer in place. */
module Tokenizer {

  const ARGS_SIZE: nat := 512
  const UINT_MAX: nat := 0xFFFF_FFFF

  /** The C string starting at `i` in `buf`. */
  function CStr(buf: seq<char>, i: nat): string
    decreases |buf| - i
  {
    if i >= |buf| || buf[i] == '\0' then "" else [buf[i]] + CStr(buf, i + 1)
  }

  // ---------------------------------------------------------------- specification

  /** The characters of `s` from `i` up to the next slash. */
  function Segment(s: string, i: nat): string
    decreases |s| - i
  {
    if i >= |s| || s[i] == '/' then "" else [s[i]] + Segment(s, i + 1)
  }

  /** One token per slash at or after `i`; a slash that ends `s` starts none. */
  function TokensFrom(s: string, i: nat): seq<string>
    decreases |s| - i
  {
    if i >= |s| then []
    else if s[i] == '/' && i + 1 < |s| then [Segment(s, i + 1)] + TokensFrom(s, i + 1)
    else TokensFrom(s, i + 1)
  }

  function Tokens(s: string): seq<string> {
    TokensFrom(s, 0)
  }

  /** The number of slashes among the first `i` characters. */
  function SlashesTo(s: string, i: nat): nat
    requires i <= |s|
  {
    if i == 0 then 0 else SlashesTo(s, i - 1) + if s[i - 1] == '/' then 1 else 0
  }

  function Slashes(s: string): nat {
    SlashesTo(s, |s|)
  }

  predicate IsDots(token: string) {
    token == "." || token == ".."
  }

  /** The paths the tokeniser accepts. */
  predicate Accepts(s: string) {
    s != "" && s[0] == '/' && Slashes(s) <= ARGS_SIZE && forall i :: 0 <= i < |Tokens(s)| ==> !IsDots(Tokens(s)[i])
  }

  /** Each token preceded by a slash. */
  function Join(tokens: seq<string>): string {
    if tokens == [] then "" else "/" + tokens[0] + Join(tokens[1..])
  }

  /** The one trailing slash that starts no token. */
  function Tail(s: string): string {
    if s != "" && s[|s| - 1] == '/' then "/" else ""
  }

  // ---------------------------------------------------------------- what the tokens mean

  lemma {:induction false} RebuildFrom(s: string, i: nat)
    requires i < |s| || (i == |s| && Tail(s) == "")
    ensures s[i..] == Segment(s, i) + Join(TokensFrom(s, i)) + Tail(s)
    decreases |s| - i
  {
    if i < |s| {
      assert s[i..] == [s[i]] + s[i + 1..];
      if i + 1 < |s| || s[i] != '/' {
        RebuildFrom(s, i + 1);
      }
    }
  }

  /** Joining the tokens of an absolute path rebuilds it up to one trailing slash, and no
      token contains a slash. */
  lemma TokensRebuild(s: string)
    requires s != "" && s[0] == '/'
    ensures s == Join(Tokens(s)) + Tail(s)
    ensures forall i :: 0 <= i < |Tokens(s)| ==> '/' !in Tokens(s)[i]
  {
    RebuildFrom(s, 0);
    assert s[0..] == s;
    SlashFree(s, 0);
  }

  lemma {:induction false} SlashFree(s: string, i: nat)
    ensures '/' !in Segment(s, i)
    ensures forall k :: 0 <= k < |TokensFrom(s, i)| ==> '/' !in TokensFrom(s, i)[k]
    decreases |s| - i
  {
    if i < |s| {
      SlashFree(s, i + 1);
    }
  }

  /** Slash-free tokens can be read back from their join, so the tokens of a path are the
      only ones that rebuild it. */
  lemma {:induction false} JoinInjective(a: seq<string>, b: seq<string>)
    requires Join(a) == Join(b)
    requires forall i :: 0 <= i < |a| ==> '/' !in a[i]
    requires forall i :: 0 <= i < |b| ==> '/' !in b[i]
    ensures a == b
  {
    if a != [] && b != [] {
      HeadLength(a, b);
      HeadLength(b, a);
      assert Join(a)[1..][..|a[0]|] == a[0] && Join(b)[1..][..|b[0]|] == b[0];
      assert Join(a)[1 + |a[0]|..] == Join(a[1..]) && Join(b)[1 + |b[0]|..] == Join(b[1..]);
      JoinInjective(a[1..], b[1..]);
      assert a == [a[0]] + a[1..] && b == [b[0]] + b[1..];
    }
  }

  lemma HeadLength(a: seq<string>, b: seq<string>)
    requires a != [] && b != [] && Join(a) == Join(b) && '/' !in a[0]
    ensures |a[0]| <= |b[0]|
  {
    AfterHead(b);
    assert forall k :: 1 <= k <= |a[0]| ==> Join(a)[k] == a[0][k - 1] != '/';
  }

  lemma AfterHead(b: seq<string>)
    requires b != []
    ensures |Join(b)| > |b[0]| + 1 ==> Join(b)[|b[0]| + 1] == '/'
  {
    var rest := Join(b[1..]);
    assert rest != "" ==> rest[0] == '/';
    assert Join(b) == "/" + b[0] + rest;
  }

  // ---------------------------------------------------------------- what is accepted

  /** Lexical normalisation: "." is dropped, and ".." drops the token before it. */
  function Normal(tokens: seq<string>): (r: seq<string>)
    ensures |r| <= |tokens|
  {
    if tokens == [] then []
    else
      var before, last := Normal(tokens[..|tokens| - 1]), tokens[|tokens| - 1];
      if last == "." then before
      else if last != ".." then before + [last]
      else if before == [] then []
      else before[..|before| - 1]
  }

  lemma {:induction false} NormalFixed(tokens: seq<string>)
    ensures Normal(tokens) == tokens <==> forall i :: 0 <= i < |tokens| ==> !IsDots(tokens[i])
    ensures Normal(tokens) != tokens ==> |Normal(tokens)| < |tokens|
  {
    if tokens != [] {
      var front, last := tokens[..|tokens| - 1], tokens[|tokens| - 1];
      NormalFixed(front);
      assert tokens == front + [last];
      assert forall i :: 0 <= i < |front| ==> tokens[i] == front[i];
    }
  }

  lemma {:induction false} SlashesCounted(s: string, i: nat)
    requires i <= |s|
    ensures SlashesTo(s, i) == multiset(s[..i])['/']
  {
    if i > 0 {
      SlashesCounted(s, i - 1);
      assert s[..i] == s[..i - 1] + [s[i - 1]];
    }
  }

  /** The accepted paths are the absolute ones of at most 512 slashes that lexical normalisation
      leaves as they are. */
  lemma AcceptsExactly(s: string)
    ensures Accepts(s) <==> s != "" && s[0] == '/' && multiset(s)['/'] <= 512 && Normal(Tokens(s)) == Tokens(s)
  {
    NormalFixed(Tokens(s));
    SlashesCounted(s, |s|);
    assert s[..|s|] == s;
  }

  // ---------------------------------------------------------------- the loop

  /** `buf` is `s` with the slashes before `i` overwritten by terminators. */
  ghost predicate Cut(buf: seq<char>, s: string, i: nat) {
    && |s| < |buf| && buf[|s|] == '\0' && '\0' !in s && i <= |s|
    && forall k :: 0 <= k < |s| ==> buf[k] == if k < i && s[k] == '/' then '\0' else s[k]
  }

  lemma {:induction false} CutSegment(buf: seq<char>, s: string, b: nat)
    requires Cut(buf, s, |s|) && b <= |s|
    ensures CStr(buf, b) == Segment(s, b)
    decreases |s| - b
  {
    if b < |s| {
      assert s[b] != '\0';
      if s[b] != '/' {
        CutSegment(buf, s, b + 1);
      }
    }
  }

  lemma {:induction false} SlashesMonotone(s: string, i: nat, k: nat)
    requires i <= k <= |s|
    ensures SlashesTo(s, i) <= SlashesTo(s, k)
  {
    if i < k {
      SlashesMonotone(s, i, k - 1);
    }
  }

  method Strlen(path: array<char>, ghost s: string) returns (length: nat)
    requires Cut(path[..], s, 0)
    ensures length == |s|
  {
    length := 0;
    while path[length] != '\0'
      invariant length <= |s|
      decreases |s| - length
    {
      length := length + 1;
    }
    assert forall k :: 0 <= k < |s| ==> s[k] in s;
  }

  function SegmentsAt(s: string, starts: seq<nat>): seq<string> {
    seq(|starts|, k requires 0 <= k < |starts| => Segment(s, starts[k]))
  }

  /** The token starts among the first `i` characters: after each slash but a final one. */
  function TokenStarts(s: string, i: nat): seq<nat>
    requires i <= |s|
  {
    if i == 0 then [] else TokenStarts(s, i - 1) + if s[i - 1] == '/' && i < |s| then [i] else []
  }

  lemma {:induction false} StartsCount(s: string, i: nat)
    requires i <= |s|
    ensures |TokenStarts(s, i)| == SlashesTo(s, i) - (if i == |s| then |Tail(s)| else 0)
    ensures i > 0 && s[0] == '/' ==> if TokenStarts(s, i) == [] then s == "/" else TokenStarts(s, i)[0] == 1
  {
    if i > 0 {
      StartsCount(s, i - 1);
    }
  }

  ghost predicate Increasing(starts: seq<nat>, limit: nat) {
    && (forall k :: 0 <= k < |starts| ==> starts[k] <= limit)
    && (forall k, l :: 0 <= k < l < |starts| ==> starts[k] < starts[l])
  }

  lemma {:induction false} StartsIncrease(s: string, i: nat)
    requires i <= |s|
    ensures Increasing(TokenStarts(s, i), i)
  {
    if i > 0 {
      StartsIncrease(s, i - 1);
      var before := TokenStarts(s, i - 1);
      assert Increasing(before, i) && Increasing(before + [i], i);
    }
  }

  lemma {:induction false} StartsTokens(s: string, i: nat)
    requires i <= |s|
    ensures SegmentsAt(s, TokenStarts(s, i)) + TokensFrom(s, i) == Tokens(s)
  {
    if i > 0 {
      var before := TokenStarts(s, i - 1);
      StartsTokens(s, i - 1);
      if s[i - 1] == '/' && i < |s| {
        assert SegmentsAt(s, before + [i]) == SegmentsAt(s, before) + [Segment(s, i)];
        assert TokensFrom(s, i - 1) == [Segment(s, i)] + TokensFrom(s, i);
      }
    }
  }

  lemma {:induction false} StartsGrow(s: string, i: nat, k: nat)
    requires i <= k <= |s|
    ensures TokenStarts(s, i) <= TokenStarts(s, k)
  {
    if i < k {
      StartsGrow(s, i, k - 1);
    }
  }

  /** The first loop: overwrites every slash by a terminator and records where the tokens
      start; it gives up at the slash after the 512th. */
  method CutSlashes(path: array<char>, argIdxs: array<nat>, length: nat, ghost s: string) returns (j: nat)
    requires Cut(path[..], s, 0) && argIdxs.Length == ARGS_SIZE && length == |s|
    modifies path, argIdxs
    ensures j == UINT_MAX <==> Slashes(s) > ARGS_SIZE
    ensures j != UINT_MAX ==> j <= ARGS_SIZE && Cut(path[..], s, |s|) && argIdxs[..j] == TokenStarts(s, |s|)
    ensures argIdxs[0] == old(argIdxs[0]) || (TokenStarts(s, |s|) != [] && argIdxs[0] == TokenStarts(s, |s|)[0])
  {
    var i := 0;
    j := 0;
    while i < length
      invariant i <= length && Cut(path[..], s, i)
      invariant j <= ARGS_SIZE && SlashesTo(s, i) <= ARGS_SIZE
      invariant argIdxs[..j] == TokenStarts(s, i)
      invariant if j == 0 then argIdxs[0] == old(argIdxs[0]) else argIdxs[0] == TokenStarts(s, i)[0]
    {
      if path[i] == '/' {
        path[i] := '\0';
        StartsCount(s, i);
        if j == ARGS_SIZE {
          SlashesMonotone(s, i + 1, |s|);
          StartsGrow(s, i, |s|);
          return UINT_MAX;
        }
        if i != length - 1 {
          ghost var done := argIdxs[..j];
          argIdxs[j] := i + 1;
          j := j + 1;
          assert argIdxs[..j] == done + [i + 1];
        }
      }
      i := i + 1;
    }
  }

  /** What the buffer and the recorded starts say once the first loop is through. */
  lemma CutTokens(buf: seq<char>, s: string)
    requires Cut(buf, s, |s|) && s != "" && s[0] == '/'
    ensures var starts := TokenStarts(s, |s|);
            && |starts| == |Tokens(s)|
            && (forall k :: 0 <= k < |starts| ==> CStr(buf, starts[k]) == Tokens(s)[k])
            && Increasing(starts, |s|)
            && (if starts == [] then CStr(buf, 0) == CStr(buf, 1) == "" else starts[0] == 1)
  {
    var starts := TokenStarts(s, |s|);
    StartsTokens(s, |s|);
    StartsCount(s, |s|);
    StartsIncrease(s, |s|);
    assert Tokens(s) == SegmentsAt(s, starts);
    forall k | 0 <= k < |starts| ensures CStr(buf, starts[k]) == Tokens(s)[k] {
      CutSegment(buf, s, starts[k]);
    }
  }

  /** The second loop: whether some token is "." or "..". */
  method HasDots(path: array<char>, argIdxs: array<nat>, j: nat, ghost tokens: seq<string>) returns (dots: bool)
    requires j == |tokens| <= argIdxs.Length
    requires forall k :: 0 <= k < j ==> CStr(path[..], argIdxs[k]) == tokens[k]
    ensures dots <==> exists k :: 0 <= k < j && IsDots(tokens[k])
  {
    var i := 0;
    while i < j
      invariant i <= j
      invariant forall k :: 0 <= k < i ==> !IsDots(tokens[k])
    {
      var token := CStr(path[..], argIdxs[i]);
      if token == "." || token == ".." {
        return true;
      }
      i := i + 1;
    }
    dots := false;
  }

  /** The first loop and the tests before it. */
  method CutPath(path: array<char>, argIdxs: array<nat>, ghost s: string) returns (j: nat)
    requires Cut(path[..], s, 0) && argIdxs.Length == ARGS_SIZE
    modifies path, argIdxs
    ensures j != UINT_MAX <==> s != "" && s[0] == '/' && Slashes(s) <= ARGS_SIZE
    ensures j != UINT_MAX ==>
              && j == |Tokens(s)| <= ARGS_SIZE
              && (forall k :: 0 <= k < j ==> CStr(path[..], argIdxs[k]) == Tokens(s)[k])
              && Increasing(argIdxs[..j], |s|)
    ensures argIdxs[0] == 1 || argIdxs[0] == old(argIdxs[0])
    ensures j == 0 && argIdxs[0] <= 1 ==> CStr(path[..], argIdxs[0]) == ""
  {
    var length := Strlen(path, s);
    if path[0] != '/' {
      return UINT_MAX;
    }
    StartsCount(s, |s|);
    j := CutSlashes(path, argIdxs, length, s);
    if j != UINT_MAX {
      CutTokens(path[..], s);
      assert forall k :: 0 <= k < j ==> argIdxs[k] == argIdxs[..j][k];
    }
  }

  /** Cuts `path` at its slashes and records where the tokens start.  It accepts exactly the
      absolute paths of at most 512 slashes without "." and ".." tokens. */
  method ProcessPath(path: array<char>, argIdxs: array<nat>, ghost s: string) returns (j: nat)
    requires Cut(path[..], s, 0) && argIdxs.Length == ARGS_SIZE
    modifies path, argIdxs
    ensures j != UINT_MAX <==> Accepts(s)
    ensures j != UINT_MAX ==>
              && j == |Tokens(s)| <= ARGS_SIZE
              && (forall k :: 0 <= k < j ==> CStr(path[..], argIdxs[k]) == Tokens(s)[k])
              && Increasing(argIdxs[..j], |s|)
    // "/" has no token; the slot the search then looks at still denotes the empty string
    ensures argIdxs[0] == 1 || argIdxs[0] == old(argIdxs[0])
    ensures j == 0 && argIdxs[0] <= 1 ==> CStr(path[..], argIdxs[0]) == ""
  {
    j := CutPath(path, argIdxs, s);
    if j != UINT_MAX {
      var dots := HasDots(path, argIdxs, j, Tokens(s));
      if dots {
        j := UINT_MAX;
      }
    }
  }
}
