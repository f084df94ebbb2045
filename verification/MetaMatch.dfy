/** The wildcard matcher of `lib/str.c`, against a declarative meaning of patterns. */
module MetaMatch {
  import opened Basics
  import opened WideStrings

  const STAR: wchar := 42
  const QUESTION: wchar := 63
  const OPEN: wchar := 91
  const CLOSE: wchar := 93
  const DASH: wchar := 45

  // ---------------------------------------------------------------------------
  // Patterns and their meaning
  // ---------------------------------------------------------------------------

  datatype Token = Literal(c: wchar) | AnyOne | AnyMany | OneOf(members: seq<wchar>)

  /** First position of a closing bracket at or after i, or the length. */
  function ClosePosition(p: seq<wchar>, i: nat): (k: nat)
    requires i <= |p|
    ensures i <= k <= |p|
    ensures k < |p| ==> p[k] == CLOSE
    ensures forall j | i <= j < k :: p[j] != CLOSE
    decreases |p| - i
  {
    if i == |p| || p[i] == CLOSE then i else ClosePosition(p, i + 1)
  }

  /** The tokens of a pattern; None when a set is never closed. */
  function Parse(p: seq<wchar>): Option<seq<Token>>
    decreases |p|
  {
    if p == [] then Some([])
    else if p[0] == OPEN then
      var k := ClosePosition(p, 1);
      if k == |p| then None
      else Then(OneOf(p[1..k]), Parse(p[k + 1..]))
    else if p[0] == STAR then Then(AnyMany, Parse(p[1..]))
    else if p[0] == QUESTION then Then(AnyOne, Parse(p[1..]))
    else Then(Literal(p[0]), Parse(p[1..]))
  }

  function Then(t: Token, rest: Option<seq<Token>>): Option<seq<Token>> {
    if rest.None? then None else Some([t] + rest.value)
  }

  /** Where a range written with the dash at position j starts: at the preceding character. */
  function RangeStart(members: seq<wchar>, j: nat): wchar
    requires j < |members|
  {
    if j == 0 then 0 else members[j - 1]
  }

  /** Position j of a set covers c: a plain character covers itself; a dash covers the range
      it stands for and its upper end, and nothing when no upper end follows. */
  predicate Covers(members: seq<wchar>, j: nat, c: wchar)
    requires j < |members|
  {
    if members[j] != DASH then members[j] == c
    else j + 1 < |members| && (RangeStart(members, j) <= c <= members[j + 1] || members[j + 1] == c)
  }

  predicate InSet(members: seq<wchar>, c: wchar) {
    exists j: nat :: j < |members| && Covers(members, j, c)
  }

  /** The words one token stands for. */
  predicate Accepts(t: Token, w: seq<wchar>) {
    match t
    case Literal(c) => w == [c]
    case AnyOne => |w| == 1
    case AnyMany => true
    case OneOf(members) => |w| == 1 && InSet(members, w[0])
  }

  function Concat(words: seq<seq<wchar>>): seq<wchar> {
    if words == [] then [] else words[0] + Concat(words[1..])
  }

  ghost predicate Splits(s: seq<wchar>, tokens: seq<Token>, words: seq<seq<wchar>>) {
    && |words| == |tokens|
    && Concat(words) == s
    && forall i | 0 <= i < |tokens| :: Accepts(tokens[i], words[i])
  }

  /** A string matches when it can be cut into one word per token. */
  ghost predicate Matches(s: seq<wchar>, tokens: seq<Token>) {
    exists words :: Splits(s, tokens, words)
  }

  lemma MatchesNothing(s: seq<wchar>)
    ensures Matches(s, []) <==> s == []
  {
    if s == [] {
      assert Splits(s, [], []);
    }
  }

  /** Cutting off the first word. */
  lemma FirstWord(s: seq<wchar>, t: Token, tokens: seq<Token>)
    requires Matches(s, [t] + tokens)
    ensures exists k :: 0 <= k <= |s| && Accepts(t, s[..k]) && Matches(s[k..], tokens)
  {
    var words :| Splits(s, [t] + tokens, words);
    var k := |words[0]|;
    assert s == words[0] + Concat(words[1..]);
    assert s[..k] == words[0] && s[k..] == Concat(words[1..]);
    assert ([t] + tokens)[0] == t;
    forall i | 0 <= i < |tokens|
      ensures Accepts(tokens[i], words[1..][i])
    {
      assert ([t] + tokens)[i + 1] == tokens[i];
    }
    assert Splits(s[k..], tokens, words[1..]);
  }

  lemma AddWord(s: seq<wchar>, k: nat, t: Token, tokens: seq<Token>)
    requires k <= |s| && Accepts(t, s[..k]) && Matches(s[k..], tokens)
    ensures Matches(s, [t] + tokens)
  {
    var words :| Splits(s[k..], tokens, words);
    var all := [s[..k]] + words;
    assert all[1..] == words && s == s[..k] + s[k..];
    assert Splits(s, [t] + tokens, all);
  }

  /** A token that stands for single characters takes the first one. */
  lemma OneCharacter(s: seq<wchar>, t: Token, tokens: seq<Token>)
    requires !t.AnyMany?
    ensures Matches(s, [t] + tokens) <==> s != [] && Accepts(t, s[..1]) && Matches(s[1..], tokens)
  {
    if Matches(s, [t] + tokens) {
      FirstWord(s, t, tokens);
      var k :| 0 <= k <= |s| && Accepts(t, s[..k]) && Matches(s[k..], tokens);
      assert k == 1;
    }
    if s != [] && Accepts(t, s[..1]) && Matches(s[1..], tokens) {
      AddWord(s, 1, t, tokens);
    }
  }

  lemma ManyCharacters(s: seq<wchar>, tokens: seq<Token>)
    ensures Matches(s, [AnyMany] + tokens) <==> exists k :: 0 <= k <= |s| && Matches(s[k..], tokens)
  {
    if Matches(s, [AnyMany] + tokens) {
      FirstWord(s, AnyMany, tokens);
    }
    if exists k :: 0 <= k <= |s| && Matches(s[k..], tokens) {
      var k :| 0 <= k <= |s| && Matches(s[k..], tokens);
      AddWord(s, k, AnyMany, tokens);
    }
  }

  // ---------------------------------------------------------------------------
  // The matcher
  // ---------------------------------------------------------------------------

  /** Every set from position i on is closed. */
  predicate Closed(pat: seq<wchar>, i: nat)
    requires IsString(pat) && i < |pat|
  {
    Parse(TextFrom(pat, i)).Some?
  }

  function Tokens(pat: seq<wchar>, i: nat): seq<Token>
    requires IsString(pat) && i < |pat| && Closed(pat, i)
  {
    Parse(TextFrom(pat, i)).value
  }

  /** `MetaMatch`: the cursors are the C pointers, and every read is inside its buffer. */
  method MetaMatch(str: seq<wchar>, si: nat, pat: seq<wchar>, pi: nat) returns (found: bool)
    requires IsString(str) && IsString(pat) && si < |str| && pi < |pat|
    requires Closed(pat, pi)
    ensures found <==> Matches(TextFrom(str, si), Tokens(pat, pi))
    decreases |pat| - pi, 0
  {
    var s, q := si, pi;
    ghost var answer := Matches(TextFrom(str, si), Tokens(pat, pi));
    while true
      invariant si <= s < |str| && pi <= q < |pat| && Closed(pat, q)
      invariant Matches(TextFrom(str, s), Tokens(pat, q)) <==> answer
      decreases |pat| - q
    {
      var p := pat[q];
      if p == 0 {
        MatchesNothing(TextFrom(str, s));
        return str[s] == 0;
      }
      if p == STAR {
        PlainStep(pat, q);
        found := MatchMany(str, s, pat, q + 1);
        return;
      }
      var ok, next := MatchCharacter(str, s, pat, q);
      if !ok {
        return false;
      }
      s, q := s + 1, next;
    }
  }

  /** The cases of the switch that consume exactly one character. */
  method MatchCharacter(str: seq<wchar>, s: nat, pat: seq<wchar>, q: nat) returns (ok: bool, next: nat)
    requires IsString(str) && IsString(pat) && s < |str| && q < |pat|
    requires Closed(pat, q) && pat[q] != 0 && pat[q] != STAR
    ensures !ok ==> !Matches(TextFrom(str, s), Tokens(pat, q))
    ensures ok ==> s + 1 < |str| && q < next < |pat| && Closed(pat, next)
    ensures ok ==> (Matches(TextFrom(str, s), Tokens(pat, q))
                    <==> Matches(TextFrom(str, s + 1), Tokens(pat, next)))
  {
    var p := pat[q];
    StringStep(str, s);
    ghost var text := TextFrom(str, s);
    if p == OPEN {
      ghost var close := SetStep(pat, q);
      ghost var members := pat[q + 1..close];
      OneCharacter(text, OneOf(members), Tokens(pat, close + 1));
      if str[s] == 0 {
        return false, q;
      }
      ok, next := MatchSet(pat, q + 1, str[s], close, members);
    } else {
      PlainStep(pat, q);
      next := q + 1;
      if p == QUESTION {
        OneCharacter(text, AnyOne, Tokens(pat, next));
        ok := str[s] != 0;
      } else {
        OneCharacter(text, Literal(p), Tokens(pat, next));
        ok := str[s] == p;
      }
    }
  }

  lemma StringStep(b: seq<wchar>, i: nat)
    requires IsString(b) && i < |b|
    ensures b[i] == 0 <==> i == |b| - 1
    ensures b[i] == 0 <==> TextFrom(b, i) == []
    ensures b[i] != 0 ==> TextFrom(b, i)[..1] == [b[i]] && TextFrom(b, i)[1..] == TextFrom(b, i + 1)
  {}

  lemma PlainStep(pat: seq<wchar>, q: nat)
    requires IsString(pat) && q < |pat| && Closed(pat, q)
    requires pat[q] != 0 && pat[q] != OPEN
    ensures q + 1 < |pat| && Closed(pat, q + 1)
    ensures var t := if pat[q] == STAR then AnyMany else if pat[q] == QUESTION then AnyOne else Literal(pat[q]);
            Tokens(pat, q) == [t] + Tokens(pat, q + 1)
  {
    assert TextFrom(pat, q)[1..] == TextFrom(pat, q + 1);
  }

  lemma SliceOfSlice(p: seq<wchar>, i: nat, j: nat, a: nat, b: nat)
    requires i <= j <= |p| && a <= b <= j - i
    ensures p[i..j][a..b] == p[i + a..i + b]
  {
    forall k | 0 <= k < b - a
      ensures p[i..j][a..b][k] == p[i + a..i + b][k]
    {
      assert p[i..j][a + k] == p[i + a + k];
    }
  }

  lemma SetStep(pat: seq<wchar>, q: nat) returns (close: nat)
    requires IsString(pat) && q < |pat| && Closed(pat, q) && pat[q] == OPEN
    ensures q < close < |pat| - 1 && pat[close] == CLOSE && Closed(pat, close + 1)
    ensures forall j | q < j < close :: pat[j] != CLOSE
    ensures Tokens(pat, q) == [OneOf(pat[q + 1..close])] + Tokens(pat, close + 1)
  {
    var tail := TextFrom(pat, q);
    var k := ClosePosition(tail, 1);
    close := q + k;
    assert tail[0] == OPEN && k < |tail|;
    assert tail[k + 1..] == TextFrom(pat, close + 1);
    SliceOfSlice(pat, q, |pat| - 1, 1, k);
    forall j | q < j < close
      ensures pat[j] != CLOSE
    {
      assert tail[j - q] == pat[j];
    }
  }

  /** The `*` case: zero or more characters are given to the star, longest rest first. */
  method MatchMany(str: seq<wchar>, si: nat, pat: seq<wchar>, pi: nat) returns (found: bool)
    requires IsString(str) && IsString(pat) && si < |str| && pi < |pat|
    requires Closed(pat, pi)
    ensures found <==> Matches(TextFrom(str, si), [AnyMany] + Tokens(pat, pi))
    decreases |pat| - pi, 1
  {
    ghost var text, tokens := TextFrom(str, si), Tokens(pat, pi);
    ManyCharacters(text, tokens);
    var s := si;
    while str[s] != 0
      invariant si <= s < |str|
      invariant forall k | 0 <= k < s - si :: !Matches(text[k..], tokens)
      decreases |str| - s
    {
      assert text[s - si..] == TextFrom(str, s);
      found := MetaMatch(str, s, pat, pi);
      if found {
        return;
      }
      s := s + 1;
    }
    assert text[s - si..] == TextFrom(str, s);
    found := MetaMatch(str, s, pat, pi);
  }

  /** The `[` case: scans the set for c, then skips to the character after the bracket. */
  method MatchSet(pat: seq<wchar>, start: nat, c: wchar, ghost close: nat, ghost members: seq<wchar>)
    returns (inSet: bool, next: nat)
    requires IsString(pat) && start <= close < |pat| - 1
    requires pat[close] == CLOSE && members == pat[start..close]
    requires forall j | start <= j < close :: pat[j] != CLOSE
    ensures inSet <==> InSet(members, c)
    ensures inSet ==> next == close + 1
  {
    var l: wchar, q, p: wchar := 0, start, 0;
    while true
      invariant start <= q <= close
      invariant q < close && pat[q] == DASH ==> l == RangeStart(members, q - start)
      invariant forall j: nat | j < q - start :: !Covers(members, j, c)
      decreases close - q
    {
      ghost var j := q - start;
      p := pat[q];
      q := q + 1;
      if p == CLOSE {
        return false, q;
      }
      assert members[j] == p;
      if p == DASH {
        p := pat[q];
        if p == 0 || p == CLOSE {
          assert j + 1 == |members|;
          return false, q;
        }
        assert members[j + 1] == p;
        if l <= c <= p {
          assert Covers(members, j, c);
          break;
        }
      }
      l := p;
      if c == p {
        assert Covers(members, j, c);
        break;
      }
      assert !Covers(members, j, c);
    }
    while p != 0 && p != CLOSE
      invariant start < q <= close + 1
      invariant q == close + 1 <==> p == CLOSE
      invariant p != 0
      decreases close + 1 - q
    {
      p := pat[q];
      q := q + 1;
    }
    return true, q;
  }

  /** `MetaMatch` called on whole buffers decides the declarative relation. */
  method MatchStrings(str: seq<wchar>, pat: seq<wchar>) returns (found: bool)
    requires IsString(str) && IsString(pat) && Closed(pat, 0)
    ensures found <==> Matches(str[..|str| - 1], Parse(pat[..|pat| - 1]).value)
  {
    found := MetaMatch(str, 0, pat, 0);
  }
}
