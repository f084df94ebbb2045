/** Patterns of `lib/str.c` as they are written: plain characters, '?', '*' and sets of single
    characters and ranges; and what the matcher makes of them. */
module MetaPieces {
  import opened Basics
  import opened WideStrings
  import opened MetaMatch

  /** A single character of a set, or a range. */
  datatype Member = Single(c: wchar) | Range(lo: wchar, hi: wchar)

  /** No '-' and no ']' among the characters. */
  predicate ValidMember(m: Member) {
    match m
    case Single(c) => c != 45 && c != 93
    case Range(lo, hi) => lo != 45 && lo != 93 && hi != 45 && hi != 93
  }

  predicate ValidMembers(ms: seq<Member>) {
    forall k | 0 <= k < |ms| :: ValidMember(ms[k])
  }

  function MemberText(m: Member): seq<wchar> {
    match m
    case Single(c) => [c]
    case Range(lo, hi) => [lo, 45, hi]
  }

  function MembersText(ms: seq<Member>): seq<wchar> {
    if ms == [] then [] else MemberText(ms[0]) + MembersText(ms[1..])
  }

  // ---------------------------------------------------------------------------
  // Sets
  // ---------------------------------------------------------------------------

  /** What stands in a set behind k characters, seen as a set of its own. */
  lemma CoversBehind(a: seq<wchar>, b: seq<wchar>, j: nat, c: wchar)
    requires j < |b| && (j == 0 ==> b[0] != DASH)
    ensures Covers(a + b, |a| + j, c) <==> Covers(b, j, c)
  {
    assert forall i | 0 <= i < |b| :: (a + b)[|a| + i] == b[i];
  }

  /** A first member ends before the rest when the rest does not start with a dash. */
  lemma CoversBefore(a: seq<wchar>, b: seq<wchar>, j: nat, c: wchar)
    requires j < |a| && (j == |a| - 1 ==> a[j] != DASH)
    ensures Covers(a + b, j, c) <==> Covers(a, j, c)
  {}

  lemma InSetConcat(a: seq<wchar>, b: seq<wchar>, c: wchar)
    requires a != [] ==> a[|a| - 1] != DASH
    requires b != [] ==> b[0] != DASH
    ensures InSet(a + b, c) <==> InSet(a, c) || InSet(b, c)
  {
    if InSet(a + b, c) {
      var j: nat :| j < |a + b| && Covers(a + b, j, c);
      if j < |a| {
        CoversBefore(a, b, j, c);
      } else {
        CoversBehind(a, b, j - |a|, c);
      }
    }
    if InSet(a, c) {
      var j: nat :| j < |a| && Covers(a, j, c);
      CoversBefore(a, b, j, c);
      assert Covers(a + b, j, c);
    }
    if InSet(b, c) {
      var j: nat :| j < |b| && Covers(b, j, c);
      CoversBehind(a, b, j, c);
      assert Covers(a + b, |a| + j, c);
    }
  }

  lemma InMember(m: Member, c: wchar)
    requires ValidMember(m)
    ensures InSet(MemberText(m), c)
            <==> (m.Single? && m.c == c) || (m.Range? && (m.lo <= c <= m.hi || c == m.lo || c == m.hi))
  {
    var t := MemberText(m);
    if m.Single? {
      assert Covers(t, 0, c) <==> m.c == c;
    } else {
      assert Covers(t, 0, c) <==> m.lo == c;
      assert Covers(t, 1, c) <==> m.lo <= c <= m.hi || m.hi == c;
      assert Covers(t, 2, c) <==> m.hi == c;
    }
  }

  /** A set covers exactly its single characters and its ranges with both their ends. */
  lemma {:induction false} InMembers(ms: seq<Member>, c: wchar)
    requires ValidMembers(ms)
    ensures InSet(MembersText(ms), c)
            <==> exists k | 0 <= k < |ms| ::
                   || (ms[k].Single? && ms[k].c == c)
                   || (ms[k].Range? && (ms[k].lo <= c <= ms[k].hi || c == ms[k].lo || c == ms[k].hi))
  {
    if ms != [] {
      var m, rest := ms[0], ms[1..];
      assert ValidMember(m) && ValidMembers(rest);
      FirstOfText(rest);
      InSetConcat(MemberText(m), MembersText(rest), c);
      InMember(m, c);
      InMembers(rest, c);
      assert ms == [m] + rest;
    }
  }

  lemma FirstOfText(ms: seq<Member>)
    requires ValidMembers(ms)
    ensures MembersText(ms) != [] ==> MembersText(ms)[0] != DASH
  {
    if ms != [] {
      assert ValidMember(ms[0]);
      assert MembersText(ms)[0] == MemberText(ms[0])[0];
    }
  }

  lemma {:induction false} NeverCloses(ms: seq<Member>)
    requires ValidMembers(ms)
    ensures CLOSE !in MembersText(ms)
  {
    if ms != [] {
      assert ValidMember(ms[0]);
      NeverCloses(ms[1..]);
    }
  }

  // ---------------------------------------------------------------------------
  // Patterns
  // ---------------------------------------------------------------------------

  datatype Piece = Plain(c: wchar) | AnyCharacter | AnyText | AnyOf(members: seq<Member>)

  predicate ValidPiece(p: Piece) {
    match p
    case Plain(c) => c != 42 && c != 63 && c != 91
    case AnyCharacter => true
    case AnyText => true
    case AnyOf(ms) => ValidMembers(ms)
  }

  predicate ValidPieces(ps: seq<Piece>) {
    forall k | 0 <= k < |ps| :: ValidPiece(ps[k])
  }

  function PieceText(p: Piece): seq<wchar> {
    match p
    case Plain(c) => [c]
    case AnyCharacter => [63]
    case AnyText => [42]
    case AnyOf(ms) => [91] + MembersText(ms) + [93]
  }

  function Source(ps: seq<Piece>): seq<wchar> {
    if ps == [] then [] else PieceText(ps[0]) + Source(ps[1..])
  }

  function TokenOf(p: Piece): Token {
    match p
    case Plain(c) => Literal(c)
    case AnyCharacter => AnyOne
    case AnyText => AnyMany
    case AnyOf(ms) => OneOf(MembersText(ms))
  }

  function TokensOf(ps: seq<Piece>): (ts: seq<Token>)
    ensures |ts| == |ps| && forall k | 0 <= k < |ps| :: ts[k] == TokenOf(ps[k])
  {
    if ps == [] then [] else [TokenOf(ps[0])] + TokensOf(ps[1..])
  }

  lemma {:induction false} ClosesAt(p: seq<wchar>, i: nat, k: nat)
    requires i <= k < |p| && p[k] == CLOSE && forall j | i <= j < k :: p[j] != CLOSE
    ensures ClosePosition(p, i) == k
    decreases k - i
  {
    if i < k {
      ClosesAt(p, i + 1, k);
    }
  }

  lemma ParseFirst(p: Piece, rest: seq<wchar>)
    requires ValidPiece(p)
    ensures Parse(PieceText(p) + rest) == Then(TokenOf(p), Parse(rest))
  {
    var t := PieceText(p) + rest;
    match p
    case AnyOf(ms) =>
      NeverCloses(ms);
      var k := 1 + |MembersText(ms)|;
      assert t[k] == CLOSE && forall j | 1 <= j < k :: t[j] == MembersText(ms)[j - 1];
      ClosesAt(t, 1, k);
      assert t[1..k] == MembersText(ms) && t[k + 1..] == rest;
    case Plain(c) => assert t[1..] == rest;
    case AnyCharacter => assert t[1..] == rest;
    case AnyText => assert t[1..] == rest;
  }

  lemma {:induction false} ParsePieces(ps: seq<Piece>)
    requires ValidPieces(ps)
    ensures Parse(Source(ps)) == Some(TokensOf(ps))
  {
    if ps != [] {
      ParsePieces(ps[1..]);
      ParseFirst(ps[0], Source(ps[1..]));
    }
  }

  /** The word fits the piece. */
  predicate Fills(p: Piece, w: seq<wchar>) {
    match p
    case Plain(c) => w == [c]
    case AnyCharacter => |w| == 1
    case AnyText => true
    case AnyOf(ms) => |w| == 1 && exists k :: 0 <= k < |ms| && Has(ms[k], w[0])
  }

  predicate Has(m: Member, c: wchar) {
    (m.Single? && m.c == c) || (m.Range? && (m.lo <= c <= m.hi || c == m.lo || c == m.hi))
  }

  lemma FillsIsAccepts(p: Piece, w: seq<wchar>)
    requires ValidPiece(p)
    ensures Accepts(TokenOf(p), w) <==> Fills(p, w)
  {
    if p.AnyOf? && |w| == 1 {
      InMembers(p.members, w[0]);
      assert forall k | 0 <= k < |p.members| :: Has(p.members[k], w[0]) <==>
          || (p.members[k].Single? && p.members[k].c == w[0])
          || (p.members[k].Range? && (p.members[k].lo <= w[0] <= p.members[k].hi || w[0] == p.members[k].lo || w[0] == p.members[k].hi));
    }
  }

  /** A string matches a written pattern exactly when it is made of one word for each piece. */
  lemma MatchesPieces(s: seq<wchar>, ps: seq<Piece>)
    requires ValidPieces(ps)
    ensures Parse(Source(ps)).Some?
    ensures Matches(s, Parse(Source(ps)).value)
            <==> exists words: seq<seq<wchar>> ::
                   |words| == |ps| && Concat(words) == s && forall i | 0 <= i < |ps| :: Fills(ps[i], words[i])
  {
    ParsePieces(ps);
    var ts := TokensOf(ps);
    forall i, w | 0 <= i < |ps|
      ensures Accepts(ts[i], w) <==> Fills(ps[i], w)
    {
      FillsIsAccepts(ps[i], w);
    }
    if Matches(s, ts) {
      var words :| Splits(s, ts, words);
      assert |words| == |ps| && Concat(words) == s && forall i | 0 <= i < |ps| :: Fills(ps[i], words[i]);
    }
    if exists words: seq<seq<wchar>> ::
         |words| == |ps| && Concat(words) == s && forall i | 0 <= i < |ps| :: Fills(ps[i], words[i]) {
      var words: seq<seq<wchar>> :|
        |words| == |ps| && Concat(words) == s && forall i | 0 <= i < |ps| :: Fills(ps[i], words[i]);
      assert Splits(s, ts, words);
    }
  }

  /** What the first character of a pattern means: the end, a set, '?', '*', or itself. */
  lemma FirstOfPattern(s: seq<wchar>, c: wchar, ms: seq<Member>, rest: seq<wchar>)
    requires Parse(rest).Some? && ValidMembers(ms) && c != 42 && c != 63 && c != 91
    ensures Parse([]).Some? && Parse([63] + rest).Some? && Parse([42] + rest).Some? && Parse([c] + rest).Some?
    ensures Matches(s, Parse([]).value) <==> s == []
    ensures Matches(s, Parse([63] + rest).value) <==> s != [] && Matches(s[1..], Parse(rest).value)
    ensures Matches(s, Parse([42] + rest).value) <==> exists k | 0 <= k <= |s| :: Matches(s[k..], Parse(rest).value)
    ensures Matches(s, Parse([c] + rest).value) <==> s != [] && s[0] == c && Matches(s[1..], Parse(rest).value)
    ensures Parse([91] + MembersText(ms) + [93] + rest).Some?
    ensures Matches(s, Parse([91] + MembersText(ms) + [93] + rest).value)
            <==> s != [] && Matches(s[1..], Parse(rest).value) && exists k | 0 <= k < |ms| ::
                   || (ms[k].Single? && ms[k].c == s[0])
                   || (ms[k].Range? && (ms[k].lo <= s[0] <= ms[k].hi || s[0] == ms[k].lo || s[0] == ms[k].hi))
  {
    var tokens := Parse(rest).value;
    ParseFirst(AnyCharacter, rest);
    ParseFirst(AnyText, rest);
    ParseFirst(Plain(c), rest);
    ParseFirst(AnyOf(ms), rest);
    MatchesNothing(s);
    OneCharacter(s, AnyOne, tokens);
    ManyCharacters(s, tokens);
    OneCharacter(s, Literal(c), tokens);
    OneCharacter(s, OneOf(MembersText(ms)), tokens);
    if s != [] {
      assert s[..1] == [s[0]];
      InMembers(ms, s[0]);
    }
  }

  /** A dash in front starts a range at 0; behind the last character it stands for nothing. */
  lemma DashAtTheEnds(a: wchar, c: wchar)
    requires a != 45
    ensures InSet([45, a], c) <==> c <= a
    ensures InSet([a, 45], c) <==> c == a
  {
    assert Covers([45, a], 0, c) <==> c <= a;
    assert Covers([45, a], 1, c) <==> c == a;
    assert Covers([a, 45], 0, c) <==> c == a;
    assert !Covers([a, 45], 1, c);
  }

  /** `MatchStrings` on a set: TRUE exactly for the strings of one character that is in it. */
  method MatchBracket(str: seq<wchar>, ms: seq<Member>) returns (found: bool)
    requires IsString(str) && ValidMembers(ms) && 0 !in MembersText(ms)
    ensures found <==> |str| == 2 && exists k | 0 <= k < |ms| ::
                         || (ms[k].Single? && ms[k].c == str[0])
                         || (ms[k].Range? && (ms[k].lo <= str[0] <= ms[k].hi || str[0] == ms[k].lo || str[0] == ms[k].hi))
  {
    var pat := [91] + MembersText(ms) + [93] + [0];
    assert pat[..|pat| - 1] == PieceText(AnyOf(ms)) == PieceText(AnyOf(ms)) + [];
    ParseFirst(AnyOf(ms), []);
    assert Parse(pat[..|pat| - 1]) == Some([OneOf(MembersText(ms))] + []);
    assert TextFrom(pat, 0) == pat[..|pat| - 1];
    ghost var s := str[..|str| - 1];
    OneCharacter(s, OneOf(MembersText(ms)), []);
    MatchesNothing(if s == [] then s else s[1..]);
    if s != [] {
      assert s[..1] == [str[0]];
      InMembers(ms, str[0]);
    }
    found := MatchStrings(str, pat);
  }
}
