/** The print engine of `lib/print.c`: a 200-character buffer between the format state machine
    and a sink that truncates (`_SPrint`) or grows (`_PoolPrint`). */
module Print {
  import opened Basics
  import opened Digits
  import opened WideStrings
  import opened Numbers
  import opened PrintFormat

  const PRINT_STRING_LEN := 200
  const PRINT_ITEM_BUFFER_LEN := 100

  /** spc.maxlen: StrSize is in bytes; a size under 2 wraps around to no limit at all. */
  function VSPrintLimit(strSize: uint64): uint64 {
    Word(strSize / 2 - 1)
  }

  /** Sizes 0 and 1 both set no limit, short of the 2^64 characters no buffer has; 2 and 3 leave room
      for nothing, not even a terminator; any other size leaves one place for the terminator. */
  lemma VSPrintLimits(strSize: uint64)
    ensures VSPrintLimit(strSize) == TWO64 - 1 <==> strSize == 0 || strSize == 1
    ensures VSPrintLimit(strSize) == 0 <==> strSize == 2 || strSize == 3
    ensures strSize >= 2 ==> VSPrintLimit(strSize) == strSize / 2 - 1
  {
    if strSize >= 2 {
      WordOfSmall(strSize / 2 - 1);
    } else {
      WordOfSmall(-1);
    }
  }

  // ---------------------------------------------------------------------------
  // What a growing output keeps
  // ---------------------------------------------------------------------------

  function Joined(texts: seq<seq<wchar>>): seq<wchar> {
    if texts == [] then [] else Joined(texts[..|texts| - 1]) + texts[|texts| - 1]
  }

  /** The length and the allocation of POOL_PRINT, and how much had been passed on each time an
      allocation was asked for, what is being passed on included. */
  datatype Growth = Growth(len: nat, maxlen: nat, asked: seq<nat>)

  /** n more characters, the last of `total`: an allocation only when they do not fit. */
  function Grown(g: Growth, n: nat, total: nat, granted: nat -> bool): Growth {
    if g.len + n + 1 <= g.maxlen then g.(len := g.len + n)
    else if granted(|g.asked|) then Growth(g.len + n, g.len + n + 1 + PRINT_STRING_LEN, g.asked + [total])
    else Growth(0, 0, g.asked + [total])
  }

  /** After these texts have been passed on one by one. */
  function GrowthOf(texts: seq<seq<wchar>>, granted: nat -> bool): Growth {
    if texts == [] then Growth(0, 0, [])
    else Grown(GrowthOf(texts[..|texts| - 1], granted), |texts[|texts| - 1]|, |Joined(texts)|, granted)
  }

  /** How much the last refused allocation has lost. */
  function LostBy(asked: seq<nat>, granted: nat -> bool): nat {
    if asked == [] then 0
    else if !granted(|asked| - 1) then asked[|asked| - 1]
    else LostBy(asked[..|asked| - 1], granted)
  }

  predicate InOrder(asked: seq<nat>, total: nat) {
    (forall j, k | 0 <= j < k < |asked| :: asked[j] <= asked[k]) && forall k | 0 <= k < |asked| :: asked[k] <= total
  }

  lemma {:induction false} AskedInOrder(texts: seq<seq<wchar>>, granted: nat -> bool)
    ensures InOrder(GrowthOf(texts, granted).asked, |Joined(texts)|)
    decreases |texts|
  {
    if texts != [] {
      AskedInOrder(texts[..|texts| - 1], granted);
    }
  }

  /** Only what had been passed on when an allocation was refused is lost. */
  lemma {:induction false} LostIsAsked(asked: seq<nat>, total: nat, granted: nat -> bool)
    requires InOrder(asked, total)
    ensures LostBy(asked, granted) <= total
    ensures LostBy(asked, granted) == 0 <==> forall k | 0 <= k < |asked| && !granted(k) :: asked[k] == 0
    decreases |asked|
  {
    if asked != [] && granted(|asked| - 1) {
      var rest := asked[..|asked| - 1];
      LostIsAsked(rest, total, granted);
      assert forall k | 0 <= k < |rest| :: asked[k] == rest[k];
    }
  }

  /** Nothing is lost exactly when every allocation that was refused was asked for before anything was
      to be kept. */
  lemma NothingLostIff(texts: seq<seq<wchar>>, granted: nat -> bool)
    ensures var asked := GrowthOf(texts, granted).asked;
            && LostBy(asked, granted) <= |Joined(texts)|
            && (LostBy(asked, granted) == 0 <==> forall k | 0 <= k < |asked| && !granted(k) :: asked[k] == 0)
  {
    AskedInOrder(texts, granted);
    LostIsAsked(GrowthOf(texts, granted).asked, |Joined(texts)|, granted);
  }

  /** A granted allocation has room for exactly 200 characters more than it was asked for. */
  lemma RoomForMore(g: Growth, n: nat, total: nat, m: nat, granted: nat -> bool)
    requires g.len + n >= g.maxlen && granted(|g.asked|)
    ensures var h := Grown(g, n, total, granted);
            && h.asked == g.asked + [total] && h.len == g.len + n
            && (Grown(h, m, total + m, granted).asked == h.asked <==> m <= 200)
  {}

  lemma GrowthSnoc(texts: seq<seq<wchar>>, text: seq<wchar>, granted: nat -> bool)
    ensures Joined(texts + [text]) == Joined(texts) + text
    ensures GrowthOf(texts + [text], granted)
            == Grown(GrowthOf(texts, granted), |text|, |Joined(texts)| + |text|, granted)
  {
    assert (texts + [text])[..|texts|] == texts;
  }

  /** `total` characters have been passed on in these texts; that is how it has grown, and what is lost. */
  ghost predicate GrownFrom(texts: seq<seq<wchar>>, total: nat, g: Growth, lost: nat, granted: nat -> bool) {
    |Joined(texts)| == total && g == GrowthOf(texts, granted) && lost == LostBy(g.asked, granted) <= total
  }

  lemma GrownFurther(texts: seq<seq<wchar>>, total: nat, g: Growth, lost: nat, text: seq<wchar>, granted: nat -> bool)
    requires GrownFrom(texts, total, g, lost, granted)
    ensures var next := Grown(g, |text|, total + |text|, granted);
            var refused := |next.asked| > |g.asked| && !granted(|g.asked|);
            GrownFrom(texts + [text], total + |text|, next, if refused then total + |text| else lost, granted)
  {
    hide GrowthOf, LostBy, Joined;
    GrowthSnoc(texts, text, granted);
    LostSnoc(g.asked, total + |text|, granted);
  }

  lemma LostSnoc(asked: seq<nat>, total: nat, granted: nat -> bool)
    ensures LostBy(asked + [total], granted) == if granted(|asked|) then LostBy(asked, granted) else total
  {
    assert (asked + [total])[..|asked|] == asked;
  }

  /** The text "a" refused, then "b" granted: the "a" is lost. */
  lemma LostExample(granted: nat -> bool)
    requires !granted(0) && granted(1)
    ensures var asked := GrowthOf([[97], [98]], granted).asked;
            asked == [1, 2] && LostBy(asked, granted) == 1 && Joined([[97], [98]]) == [97, 98]
  {
    var a: seq<wchar>, b: seq<wchar> := [97], [98];
    GrowthSnoc([], a, granted);
    GrowthSnoc([a], b, granted);
    assert [] + [a] == [a] && [a] + [b] == [a, b];
    assert Grown(Growth(0, 0, []), 1, 1, granted) == Growth(0, 0, [1]);
    assert [1, 2][..1] == [1];
  }

  // ---------------------------------------------------------------------------
  // How a text reaches the output
  // ---------------------------------------------------------------------------

  /** The texts passed on so far, and the characters that still wait in the buffer. */
  datatype Cut = Cut(texts: seq<seq<wchar>>, waiting: seq<wchar>)

  function Flushed(c: Cut): Cut {
    Cut(c.texts + [c.waiting], [])
  }

  /** One more character; a full buffer is passed on. */
  function Fed(c: Cut, x: wchar): Cut {
    var waiting := c.waiting + [x];
    if |waiting| >= PRINT_STRING_LEN - 1 then Flushed(Cut(c.texts, waiting)) else Cut(c.texts, waiting)
  }

  /** How characters are cut into texts: a flush comes after so many characters as each mark says. */
  function CutOf(chars: seq<wchar>, marks: seq<nat>): Cut
    decreases |chars| + |marks|
  {
    if marks != [] && marks[|marks| - 1] >= |chars| then Flushed(CutOf(chars, marks[..|marks| - 1]))
    else if chars == [] then Cut([], [])
    else Fed(CutOf(chars[..|chars| - 1], marks), chars[|chars| - 1])
  }

  predicate Behind(marks: seq<nat>, n: nat) {
    marks != [] ==> marks[|marks| - 1] <= n
  }

  lemma CutSnoc(chars: seq<wchar>, marks: seq<nat>, x: wchar)
    requires Behind(marks, |chars|)
    ensures CutOf(chars + [x], marks) == Fed(CutOf(chars, marks), x)
  {
    assert (chars + [x])[..|chars|] == chars;
  }

  lemma CutNothing()
    ensures CutOf([], []) == Cut([], [])
  {}

  lemma CutMarked(chars: seq<wchar>, marks: seq<nat>)
    ensures CutOf(chars, marks + [|chars|]) == Flushed(CutOf(chars, marks))
  {
    assert (marks + [|chars|])[..|marks|] == marks;
  }

  /** These texts, with what still waits, are the characters; and all of them fit the buffer. */
  predicate CutInto(chars: seq<wchar>, c: Cut) {
    && Joined(c.texts) + c.waiting == chars && |c.waiting| < PRINT_STRING_LEN - 1
    && forall k | 0 <= k < |c.texts| :: |c.texts[k]| < PRINT_STRING_LEN
  }

  lemma FlushedJoins(c: Cut)
    ensures Joined(Flushed(c).texts) + Flushed(c).waiting == Joined(c.texts) + c.waiting
  {
    assert (c.texts + [c.waiting])[..|c.texts|] == c.texts;
  }

  lemma FedJoins(chars: seq<wchar>, c: Cut, x: wchar)
    requires CutInto(chars, c)
    ensures CutInto(chars + [x], Fed(c, x))
  {
    FlushedJoins(Cut(c.texts, c.waiting + [x]));
    assert Joined(c.texts) + (c.waiting + [x]) == chars + [x];
  }

  /** Nothing is lost or changed by cutting, and no text is longer than the buffer. */
  lemma {:induction false} CutKeeps(chars: seq<wchar>, marks: seq<nat>)
    ensures CutInto(chars, CutOf(chars, marks))
    decreases |chars| + |marks|
  {
    if marks != [] && marks[|marks| - 1] >= |chars| {
      CutKeeps(chars, marks[..|marks| - 1]);
      FlushedJoins(CutOf(chars, marks[..|marks| - 1]));
    } else if chars != [] {
      var front, x := chars[..|chars| - 1], chars[|chars| - 1];
      CutKeeps(front, marks);
      FedJoins(front, CutOf(front, marks), x);
      assert front + [x] == chars;
    }
  }

  /** Without marks every text fills the buffer. */
  lemma {:induction false} CutEvenly(chars: seq<wchar>)
    ensures forall k | 0 <= k < |CutOf(chars, []).texts| :: |CutOf(chars, []).texts[k]| == PRINT_STRING_LEN - 1
    decreases |chars|
  {
    if chars != [] {
      CutEvenly(chars[..|chars| - 1]);
      CutKeeps(chars[..|chars| - 1], []);
    }
  }

  /** POOL_PRINT together with the output function chosen for it. */
  class Sink {
    var str: array?<wchar>
    var len: nat
    var maxlen: nat

    /** True for `_PoolPrint`, false for `_SPrint`. */
    const growing: bool
    /** The pool's answer to each allocation. */
    const granted: nat -> bool
    var calls: nat

    /** Everything passed to the output function so far. */
    ghost var received: seq<wchar>
    ghost var outputs: nat
    /** The same, text by text; what a growing output makes of it; how much is lost for good. */
    ghost var texts: seq<seq<wchar>>
    ghost var growth: Growth
    ghost var lost: nat
    /** A bound on what will be passed, for a caller's buffer whose size is not limited. */
    ghost const bound: nat
    /** A caller's buffer, its limit, and what it held at first. */
    ghost const target: array?<wchar>
    ghost const limit: nat
    ghost const initial: seq<wchar>

    ghost predicate Valid()
      reads this, str
    {
      && NoNul(received)
      && (!growing ==> FixedValid())
      && (growing ==> PoolValid())
    }

    ghost predicate FixedValid()
      reads this, str
    {
      && str != null && str == target && maxlen == limit
      && (maxlen < str.Length || bound < str.Length)
      && |received| <= bound
      && len == Min(|received|, maxlen)
      && str[..len] == received[..len]
      && (outputs > 0 && maxlen > 0 ==> str[len] == 0)
      && |initial| == str.Length
      && (forall j | len < j < str.Length :: str[j] == initial[j])
      && (maxlen == 0 ==> forall j | 0 <= j < str.Length :: str[j] == initial[j])
    }

    ghost predicate PoolValid()
      reads this, str
    {
      && PoolSized() && (outputs > 0 ==> calls > 0) && lost <= |received|
      && (str == null ==> lost == |received|)
      && (str != null ==> str[len] == 0 && str[..len] == received[lost..])
    }

    /** Length, allocation and calls are these, and the last call was refused exactly when nothing is
        allocated now. */
    ghost predicate GrowsAs(g: Growth)
      reads this
    {
      && len == g.len && maxlen == g.maxlen && calls == |g.asked|
      && (str == null <==> calls == 0 || !granted(calls - 1))
    }

    /** What has been received came in these texts, and they are what it has grown and lost by. */
    ghost predicate Told()
      reads this
    {
      received == Joined(texts) && (growing ==> GrownFrom(texts, |received|, growth, lost, granted))
    }

    /** What VSPrint sets up. */
    constructor Fixed(dest: array<wchar>, strSize: uint64, ghost most: nat)
      requires VSPrintLimit(strSize) < dest.Length || most < dest.Length
      ensures Valid() && Told() && !growing && target == dest && limit == VSPrintLimit(strSize)
      ensures received == [] && texts == [] && outputs == 0 && bound == most && initial == dest[..]
    {
      str, len, maxlen := dest, 0, VSPrintLimit(strSize);
      growing, granted, calls := false, _ => true, 0;
      received, texts, growth, outputs, lost, bound := [], [], Growth(0, 0, []), 0, 0, most;
      target, limit, initial := dest, VSPrintLimit(strSize), dest[..];
    }

    /** For PoolPrint: everything zeroed. */
    constructor Pool(answers: nat -> bool)
      ensures Valid() && Told() && growing && str == null && len == 0 && maxlen == 0 && granted == answers
      ensures received == [] && texts == [] && outputs == 0 && calls == 0
    {
      str, len, maxlen := null, 0, 0;
      growing, granted, calls := true, answers, 0;
      received, texts, growth, outputs, lost, bound := [], [], Growth(0, 0, []), 0, 0, 0;
      target, limit, initial := null, 0, [];
    }

    /** `StrLen(Buffer)`. */
    method StrLen(buffer: array<wchar>, ghost text: seq<wchar>) returns (n: nat)
      requires Holds(buffer[..], text) && NoNul(text)
      ensures n == |text|
    {
      n := 0;
      assert forall k | 0 <= k < |text| :: text[k] == buffer[..][..|text|][k] == buffer[k];
      while buffer[n] != 0
        invariant n <= |text|
        decreases |text| - n
      {
        n := n + 1;
      }
    }

    /** `_SPrint`: append what fits and terminate. */
    method SPrint(buffer: array<wchar>, ghost text: seq<wchar>)
      requires Holds(buffer[..], text) && NoNul(text) && str != buffer
      requires len <= maxlen && (str == null ==> maxlen == 0)
      requires str != null ==> maxlen < str.Length || len + |text| < str.Length
      modifies this`len, str
      ensures len == Min(old(len) + |text|, maxlen)
      ensures str != null ==> len <= str.Length && str[..len] == old(str[..len]) + text[..len - old(len)]
      ensures str != null && maxlen > 0 ==> len < str.Length && str[len] == 0
      ensures str != null ==> forall j | len < j < str.Length :: str[j] == old(str[j])
      ensures str != null && maxlen == 0 ==> forall j | 0 <= j < str.Length :: str[j] == old(str[j])
    {
      var n := StrLen(buffer, text);
      if len + n > maxlen {
        n := maxlen - len;
      }
      var k: nat := 0;
      assert forall j | 0 <= j < |text| :: text[j] == buffer[..][..|text|][j] == buffer[j];
      while k < n
        invariant k <= n <= |text| && len == old(len)
        invariant str != null ==> str[..len + k] == old(str[..len]) + text[..k]
        invariant str != null ==> forall j | len + k <= j < str.Length :: str[j] == old(str[j])
        invariant forall j | 0 <= j < |text| :: buffer[j] == text[j]
      {
        str[len + k] := buffer[k];
        k := k + 1;
      }
      len := len + n;
      if len < maxlen {
        str[len] := 0;
      } else if maxlen != 0 {
        str[maxlen] := 0;
      }
    }

    /** The growing half of `_PoolPrint`. */
    method Grow(newlen: nat)
      requires str == null ==> len == 0
      requires str != null ==> len <= str.Length
      requires len <= newlen
      modifies this`str, this`len, this`maxlen, this`calls
      ensures calls == old(calls) + 1
      ensures granted(old(calls)) ==> str != null && fresh(str) && maxlen == str.Length == newlen
                                      && len == old(len)
                                      && (old(str) != null ==> str[..len] == old(str[..len]))
      ensures !granted(old(calls)) ==> str == null && len == 0 && maxlen == 0
    {
      maxlen := newlen;
      var answer := granted(calls);
      calls := calls + 1;
      if answer {
        var old_ := str;
        str := new wchar[newlen];
        if old_ != null {
          var k: nat := 0;
          while k < len
            invariant str != null && fresh(str) && str.Length == newlen == maxlen && calls == old(calls) + 1
            invariant k <= len == old(len) <= old_.Length
            invariant str[..k] == old_[..k] && old_[..] == old(str[..])
          {
            str[k] := old_[k];
            k := k + 1;
          }
          assert old(str[..len]) == old_[..len];
        }
      } else {
        str := null;
        len := 0;
        maxlen := 0;
      }
    }

    /** `ps->Output(ps->Context, ps->Buffer)`. */
    method Output(buffer: array<wchar>, ghost text: seq<wchar>)
      requires Valid() && Told() && Holds(buffer[..], text) && NoNul(text) && str != buffer
      requires !growing ==> |received| + |text| <= bound
      modifies this, str
      ensures Valid() && Told() && (str == old(str) || (str != null ==> fresh(str))) && str != buffer
      ensures received == old(received) + text && texts == old(texts) + [text] && outputs == old(outputs) + 1
      ensures maxlen == old(maxlen) || growing
    {
      hide Joined, GrowthOf, LostBy, GrownFrom, NoNul;
      GrowthSnoc(texts, text, granted);
      if growing {
        GrownFurther(texts, |received|, growth, lost, text, granted);
        OutputToPool(buffer, text);
      } else {
        OutputToBuffer(buffer, text);
      }
      texts := texts + [text];
    }

    method OutputToBuffer(buffer: array<wchar>, ghost text: seq<wchar>)
      requires Valid() && !growing && Holds(buffer[..], text) && NoNul(text) && str != buffer
      requires |received| + |text| <= bound
      modifies this`len, this`received, this`outputs, str
      ensures Valid() && received == old(received) + text && outputs == old(outputs) + 1
    {
      SPrint(buffer, text);
      received, outputs := received + text, outputs + 1;
    }

    method OutputToPool(buffer: array<wchar>, ghost text: seq<wchar>)
      requires Valid() && growing && Holds(buffer[..], text) && NoNul(text) && str != buffer
      modifies this`str, this`len, this`maxlen, this`calls, this`growth, this`lost, this`received, this`outputs, str
      ensures Valid() && (str == old(str) || (str != null ==> fresh(str))) && str != buffer
      ensures received == old(received) + text && outputs == old(outputs) + 1
      ensures growth == Grown(old(growth), |text|, |received|, granted)
      ensures lost == if |growth.asked| > |old(growth).asked| && !granted(|old(growth).asked|) then |received|
                      else old(lost)
    {
      hide Grown;
      SuffixGrows(received, text, lost);
      PoolPrint(buffer, text, |received| + |text|);
      lost := if Refused(old(calls)) then |received| + |text| else lost;
      received, outputs := received + text, outputs + 1;
    }

    lemma SuffixGrows(before: seq<wchar>, text: seq<wchar>, k: nat)
      requires k <= |before|
      ensures (before + text)[k..] == before[k..] + text
      ensures (before + text)[|before| + |text|..] == []
    {}

    /** What is allocated agrees with the length and with how it has grown. */
    ghost predicate PoolSized()
      reads this, str
    {
      && GrowsAs(growth)
      && (str == null ==> len == 0 && maxlen == 0)
      && (str != null ==> maxlen == str.Length && len < maxlen)
    }

    /** `_PoolPrint`. */
    method PoolPrint(buffer: array<wchar>, ghost text: seq<wchar>, ghost total: nat)
      requires PoolSized() && Holds(buffer[..], text) && NoNul(text) && str != buffer
      modifies this`str, this`len, this`maxlen, this`calls, this`growth, str
      ensures growth == Grown(old(growth), |text|, total, granted) && PoolSized() && calls > 0
      ensures old(calls) <= calls <= old(calls) + 1 && (str == null <==> Refused(old(calls)))
      ensures str != null ==> str[len] == 0
                              && str[..len] == (if old(str) == null then [] else old(str[..len])) + text
      ensures str == old(str) || (str != null ==> fresh(str))
    {
      hide Grown, NoNul;
      var n := StrLen(buffer, text);
      Reserve(n, total);
      SPrint(buffer, text);
      assert text[..|text|] == text;
    }

    /** The growing half of `_PoolPrint`: room for n more characters, or nothing at all. */
    method Reserve(n: nat, ghost total: nat)
      requires PoolSized()
      modifies this`str, this`len, this`maxlen, this`calls, this`growth
      ensures growth == Grown(old(growth), n, total, granted)
      ensures maxlen == growth.maxlen && calls == |growth.asked| && (str == null <==> !granted(calls - 1))
      ensures old(calls) <= calls <= old(calls) + 1 && 0 < calls && (str == null <==> Refused(old(calls)))
      ensures str == null ==> len == growth.len == 0 && maxlen == 0
      ensures str != null ==> len == old(len) && growth.len == len + n < maxlen == str.Length
                              && (old(str) != null ==> str[..len] == old(str[..len]))
      ensures str == old(str) || (str != null ==> fresh(str))
    {
      growth := Grown(growth, n, total, granted);
      var newlen := len + n + 1;
      if newlen > maxlen {
        newlen := newlen + PRINT_STRING_LEN;
        Grow(newlen);
      }
    }

    /** An allocation since then has been refused. */
    ghost predicate Refused(since: nat)
      reads this
    {
      calls > since && !granted(since)
    }
  }

  /** PRINT_STATE with its local buffer. */
  class PrintState {
    const buffer: array<wchar>
    var pos: nat
    var len: uint64
    const sink: Sink
    const attrs: Attributes
    var attr: nat
    var restoreAttr: nat

    /** Everything put out so far, flushed or not; and how much of it at each flush that an attribute
        made. */
    ghost var emitted: seq<wchar>
    ghost var marks: seq<nat>

    /** The last place of the buffer is kept for a terminator. */
    ghost predicate Valid()
      reads this, buffer, sink, sink.str
    {
      Consistent() && pos < PRINT_STRING_LEN - 1 && Cuts() && (attrs == PLAIN ==> attr == 0 && restoreAttr == 0)
    }

    /** What has been passed on and what waits follow from the characters and the marks. */
    ghost predicate Cuts()
      requires buffer.Length == PRINT_STRING_LEN && pos < PRINT_STRING_LEN
      reads this`emitted, this`marks, this`pos, buffer, sink
    {
      Behind(marks, |emitted|) && CutOf(emitted, marks) == Cut(sink.texts, buffer[..pos])
    }

    ghost predicate Consistent()
      reads this`emitted, this`pos, this`len, buffer, sink, sink.str
    {
      && buffer.Length == PRINT_STRING_LEN && pos < PRINT_STRING_LEN
      && sink.Valid() && sink.Told() && sink.str != buffer
      && NoNul(emitted) && emitted == sink.received + buffer[..pos]
      && len == Word(|emitted|)
      && Room(0)
    }

    /** A caller's buffer without a limit must be large enough for what is still to come. */
    ghost predicate Room(n: nat)
      reads this`emitted, sink
    {
      !sink.growing ==> |emitted| + n <= sink.bound
    }

    constructor (target: Sink, attributes: Attributes)
      requires target.Valid() && target.Told() && target.received == [] && target.texts == []
      ensures Valid() && emitted == [] && marks == [] && sink == target && attrs == attributes && fresh(buffer)
      ensures restoreAttr == 0
    {
      buffer := new wchar[PRINT_STRING_LEN];
      pos, len, sink, attrs, attr, restoreAttr := 0, 0, target, attributes, 0, 0;
      emitted, marks := [], [];
    }

    method PFlush()
      requires Consistent()
      modifies this`pos, buffer, sink, sink.str
      ensures Consistent() && pos == 0 && sink.received == emitted && sink.outputs > 0
      ensures sink.texts == old(sink.texts) + [old(buffer[..pos])]
      ensures sink.str == old(sink.str) || (sink.str != null ==> fresh(sink.str))
    {
      hide Sink.Valid, Sink.Told, CutOf;
      buffer[pos] := 0;
      ghost var text := buffer[..pos];
      assert text == old(buffer[..pos]) && NoNul(text) by {
        assert forall i | 0 <= i < pos :: text[i] == emitted[|sink.received| + i];
      }
      sink.Output(buffer, text);
      pos := 0;
    }

    method PSetAttr(value: nat)
      requires Valid() && (attrs == PLAIN ==> value == 0)
      modifies this`pos, this`attr, this`restoreAttr, this`marks, buffer, sink, sink.str
      ensures Valid() && restoreAttr == old(attr) && attr == value && marks == old(marks) + [|emitted|]
      ensures sink.str == old(sink.str) || (sink.str != null ==> fresh(sink.str))
    {
      hide Consistent, CutOf;
      CutMarked(emitted, marks);
      PFlush();
      marks := marks + [|emitted|];
      restoreAttr := attr;
      attr := value;
    }

    /** `*ps->Pos = c; ps->Pos += 1; ps->Len += 1;` */
    method Store(c: wchar)
      requires Valid() && c != 0 && Room(1)
      modifies this`pos, this`len, this`emitted, buffer
      ensures Consistent() && emitted == old(emitted) + [c]
      ensures pos == old(pos) + 1 && buffer[..pos] == old(buffer[..pos]) + [c]
    {
      hide Sink.Valid, Sink.Told, CutOf;
      ghost var before := buffer[..pos];
      buffer[pos] := c;
      pos := pos + 1;
      WordSucc(|emitted|);
      len := Word(len + 1);
      emitted := emitted + [c];
      assert buffer[..pos] == before + [c];
    }

    method PPutc(c: wchar)
      requires Valid() && c != 0 && Room(|Crlf([c])|)
      modifies this`pos, this`len, this`emitted, buffer, sink, sink.str
      ensures Valid() && emitted == old(emitted) + Crlf([c])
      ensures sink.str == old(sink.str) || (sink.str != null ==> fresh(sink.str))
      decreases if c == NEWLINE then 1 else 0
    {
      hide Valid;
      assert Crlf([c]) == (if c == NEWLINE then Crlf([RETURN]) else []) + [c];
      if c == NEWLINE {
        PPutc(RETURN);
      }
      StoreAndFlush(c);
    }

    /** A character goes to the buffer, and a full buffer to the sink. */
    method StoreAndFlush(c: wchar)
      requires Valid() && c != 0 && Room(1)
      modifies this`pos, this`len, this`emitted, buffer, sink, sink.str
      ensures Valid() && emitted == old(emitted) + [c]
      ensures sink.str == old(sink.str) || (sink.str != null ==> fresh(sink.str))
    {
      hide CutOf, Sink.Valid, Sink.Told;
      CutSnoc(emitted, marks, c);
      Store(c);
      if pos >= PRINT_STRING_LEN - 1 {
        PFlush();
      }
    }

    /** `for (i = from; i < to; i++) PPUTC(ps, c)` */
    method Pad(c: wchar, from: nat, to: nat)
      requires Valid() && c != 0 && c != NEWLINE && Room(|Padding(c, from, to)|)
      modifies this`pos, this`len, this`emitted, buffer, sink, sink.str
      ensures Valid() && emitted == old(emitted) + Padding(c, from, to)
      ensures sink.str == old(sink.str) || (sink.str != null ==> fresh(sink.str))
    {
      hide Valid;
      var i := from;
      while i < to
        invariant from <= i && (from <= to ==> i <= to) && (from > to ==> i == from)
        invariant Valid() && emitted == old(emitted) + Repeat(c, i - from)
        invariant sink.str == old(sink.str) || (sink.str != null ==> fresh(sink.str))
      {
        assert Crlf([c]) == [c];
        PPutc(c);
        i := i + 1;
        assert Repeat(c, i - from) == Repeat(c, i - 1 - from) + [c];
      }
    }

    /** The first n characters of an item. */
    method PutItem(chars: seq<wchar>, n: nat, ghost text: seq<wchar>)
      requires Valid() && Holds(chars, text) && NoNul(text) && n <= |text| && Room(|Crlf(text[..n])|)
      modifies this`pos, this`len, this`emitted, buffer, sink, sink.str
      ensures Valid() && emitted == old(emitted) + Crlf(text[..n])
      ensures sink.str == old(sink.str) || (sink.str != null ==> fresh(sink.str))
    {
      hide Valid;
      var index: nat := 0;
      while index < n
        invariant index <= n
        invariant Valid() && emitted == old(emitted) + Crlf(text[..index])
        invariant sink.str == old(sink.str) || (sink.str != null ==> fresh(sink.str))
      {
        assert chars[index] == chars[..|text|][index] == text[index];
        PrefixStep(text, index, n);
        PPutc(chars[index]);
        index := index + 1;
      }
    }

    /** The length `PITEM` takes of an item: up to its end or its field width. */
    method ItemLength(chars: seq<wchar>, item: Item, ghost text: seq<wchar>) returns (n: nat)
      requires Holds(chars, text) && NoNul(text)
      ensures n == Taken(text, item)
    {
      n := 0;
      assert forall j | 0 <= j < |text| :: chars[j] == chars[..|text|][j] == text[j];
      while n < item.fieldWidth && chars[n] != 0
        invariant n <= |text| && n <= item.fieldWidth
        decreases |text| - n
      {
        n := n + 1;
      }
    }

    /** `PITEM`, for an item whose characters are at `chars`. */
    method PItem(chars: seq<wchar>, item: Item, ghost text: seq<wchar>)
      requires Valid() && Holds(chars, text) && NoNul(text) && GoodItem(item)
      requires Room(|Crlf(Field(text, item))|)
      modifies this`pos, this`len, this`emitted, buffer, sink, sink.str
      ensures Valid() && emitted == old(emitted) + Crlf(Field(text, item))
      ensures sink.str == old(sink.str) || (sink.str != null ==> fresh(sink.str))
    {
      hide Valid;
      var n := ItemLength(chars, item, text);
      var fieldWidth: nat := if item.fieldWidth == NO_WIDTH then n else item.fieldWidth;
      var width: nat := if n > item.width then n else item.width;
      FieldParts(text, item, n, width, fieldWidth);
      PutField(chars, item, n, width, fieldWidth, text);
    }

    /** The four output loops of `PITEM`. */
    method PutField(chars: seq<wchar>, item: Item, n: nat, width: nat, fieldWidth: nat, ghost text: seq<wchar>)
      requires Valid() && Holds(chars, text) && NoNul(text) && GoodItem(item) && n <= |text|
      requires Room(|Arranged(item, n, width, fieldWidth, text)|)
      modifies this`pos, this`len, this`emitted, buffer, sink, sink.str
      ensures Valid() && emitted == old(emitted) + Arranged(item, n, width, fieldWidth, text)
      ensures sink.str == old(sink.str) || (sink.str != null ==> fresh(sink.str))
    {
      hide Valid;
      PadIf(item.padBefore, SPACE, width, fieldWidth);
      PutJustified(chars, item, n, width, fieldWidth, text);
    }

    method PutJustified(chars: seq<wchar>, item: Item, n: nat, width: nat, fieldWidth: nat, ghost text: seq<wchar>)
      requires Valid() && Holds(chars, text) && NoNul(text) && GoodItem(item) && n <= |text|
      requires Room(|Justified(item, n, width, fieldWidth, text)|)
      modifies this`pos, this`len, this`emitted, buffer, sink, sink.str
      ensures Valid() && emitted == old(emitted) + Justified(item, n, width, fieldWidth, text)
      ensures sink.str == old(sink.str) || (sink.str != null ==> fresh(sink.str))
    {
      hide Valid;
      PutPadded(chars, item.pad, n, width, text);
      PadIf(!item.padBefore, SPACE, width, fieldWidth);
    }

    method PutPadded(chars: seq<wchar>, pad: wchar, n: nat, width: nat, ghost text: seq<wchar>)
      requires Valid() && Holds(chars, text) && NoNul(text) && pad != 0 && pad != NEWLINE && n <= |text|
      requires Room(|Padding(pad, n, width) + Crlf(text[..n])|)
      modifies this`pos, this`len, this`emitted, buffer, sink, sink.str
      ensures Valid() && emitted == old(emitted) + (Padding(pad, n, width) + Crlf(text[..n]))
      ensures sink.str == old(sink.str) || (sink.str != null ==> fresh(sink.str))
    {
      hide Valid;
      Pad(pad, n, width);
      PutItem(chars, n, text);
    }

    /** `if (when)` around the padding loop. */
    method PadIf(when: bool, c: wchar, from: nat, to: nat)
      requires Valid() && c != 0 && c != NEWLINE && (when ==> Room(|Padding(c, from, to)|))
      modifies this`pos, this`len, this`emitted, buffer, sink, sink.str
      ensures Valid() && emitted == old(emitted) + if when then Padding(c, from, to) else []
      ensures sink.str == old(sink.str) || (sink.str != null ==> fresh(sink.str))
    {
      if when {
        Pad(c, from, to);
      }
    }

    /** One directive, from behind its '%': the inner loop of `_Print`. */
    method PrintDirective(fmt: seq<wchar>, start: nat, args: seq<Arg>, first: nat, ghost outcome: Outcome)
      returns (i: nat, k: nat)
      requires Valid() && IsString(fmt) && start < |fmt| && GoodArgs(args) && first <= |args|
      requires Directive(TextFrom(fmt, start), NEW_ITEM, args[first..], attrs) == Some(outcome)
      requires Room(|Crlf(outcome.text)|)
      modifies this, buffer, sink, sink.str
      ensures Valid() && emitted == old(emitted) + Crlf(outcome.text)
      ensures sink.str == old(sink.str) || (sink.str != null ==> fresh(sink.str))
      ensures start < i < |fmt| && k <= |args| && TextFrom(fmt, i) == outcome.rest && args[k..] == outcome.args
      ensures attrs == PLAIN ==> marks == old(marks) + Times(|old(emitted)|, EarlyFlushes(TextFrom(fmt, start)))
    {
      hide Valid;
      var item;
      i, item, k := ReadItem(fmt, start, args, first, outcome);
      LastOne(fmt, i, item, args[k..], attrs);
      k := EndDirective(fmt[i], item, args, k, outcome.text);
      i := i + 1;
    }

    /** The character that ends a directive, and the attribute restored behind it. */
    method EndDirective(c: wchar, item: Item, args: seq<Arg>, first: nat, ghost field: seq<wchar>) returns (k: nat)
      requires Valid() && GoodArgs(args) && first <= |args| && GoodItem(item) && Room(|Crlf(field)|)
      requires IsAttribute(c) ==> AttributeOf(attrs, c) != 0 && field == []
      requires !IsAttribute(c) ==> Converted(c, item, args[first..]).Some?
                                   && Converted(c, item, args[first..]).value.0 == field
      modifies this, buffer, sink, sink.str
      ensures Valid() && emitted == old(emitted) + Crlf(field) && (attrs == PLAIN ==> marks == old(marks))
      ensures sink.str == old(sink.str) || (sink.str != null ==> fresh(sink.str))
      ensures k <= |args| && args[k..] == if IsAttribute(c) then args[first..]
                                          else Converted(c, item, args[first..]).value.1
    {
      hide Consistent, Cuts;
      k := first;
      if IsAttribute(c) {
        PSetAttr(AttributeOf(attrs, c));
        restoreAttr := 0;
      } else {
        k := PrintItem(c, item, args, k, field);
      }
      if restoreAttr != 0 {
        PSetAttr(restoreAttr);
      }
    }

    /** Everything in a directive before the character that ends it. */
    method ReadItem(fmt: seq<wchar>, start: nat, args: seq<Arg>, first: nat, ghost outcome: Outcome)
      returns (i: nat, item: Item, k: nat)
      requires Valid() && IsString(fmt) && start < |fmt| && first <= |args|
      requires Directive(TextFrom(fmt, start), NEW_ITEM, args[first..], attrs) == Some(outcome)
      modifies this`pos, this`attr, this`restoreAttr, this`marks, buffer, sink, sink.str
      ensures Valid() && (attrs == PLAIN ==>
                            marks == old(marks) + Times(|emitted|, EarlyFlushes(TextFrom(fmt, start))))
      ensures sink.str == old(sink.str) || (sink.str != null ==> fresh(sink.str))
      ensures start <= i < |fmt| && k <= |args| && GoodItem(item)
      ensures Directive(TextFrom(fmt, i), item, args[k..], attrs) == Some(outcome)
      ensures !IsModifier(fmt[i]) && !IsFieldAttribute(fmt[i])
      ensures IsAttribute(fmt[i]) ==> AttributeOf(attrs, fmt[i]) != 0
    {
      hide Valid, Directive, EarlyFlushes, Times, TextFrom;
      i, item, k := start, NEW_ITEM, first;
      ForgetAttr();
      ghost var n: nat := 0;
      TimesNone(marks, |emitted|);
      while IsModifier(fmt[i]) || IsFieldAttribute(fmt[i]) || (IsAttribute(fmt[i]) && AttributeOf(attrs, fmt[i]) == 0)
        invariant start <= i < |fmt| && k <= |args| && GoodItem(item)
        invariant Directive(TextFrom(fmt, i), item, args[k..], attrs) == Some(outcome)
        invariant Valid() && marks == old(marks) + Times(|emitted|, n)
        invariant EarlyFlushes(TextFrom(fmt, start)) == n + EarlyFlushes(TextFrom(fmt, i))
        invariant sink.str == old(sink.str) || (sink.str != null ==> fresh(sink.str))
        decreases |fmt| - i
      {
        if IsFieldAttribute(fmt[i]) {
          TimesSnoc(old(marks), |emitted|, n);
          n := n + 1;
        }
        i, item, k := ReadOne(fmt, i, item, args, k, outcome);
      }
      NoneLeft(fmt, i, attrs);
    }

    /** `ps->RestoreAttr = 0` */
    method ForgetAttr()
      requires Valid()
      modifies this`restoreAttr
      ensures Valid()
    {
      hide Consistent, Cuts;
      restoreAttr := 0;
    }

    method ReadOne(fmt: seq<wchar>, start: nat, before: Item, args: seq<Arg>, first: nat, ghost outcome: Outcome)
      returns (i: nat, item: Item, k: nat)
      requires Valid() && IsString(fmt) && start < |fmt| && first <= |args| && GoodItem(before)
      requires Directive(TextFrom(fmt, start), before, args[first..], attrs) == Some(outcome)
      requires || IsModifier(fmt[start]) || IsFieldAttribute(fmt[start])
               || (IsAttribute(fmt[start]) && AttributeOf(attrs, fmt[start]) == 0)
      modifies this`pos, this`attr, this`restoreAttr, this`marks, buffer, sink, sink.str
      ensures Valid() && marks == old(marks) + if IsFieldAttribute(fmt[start]) then [|emitted|] else []
      ensures sink.str == old(sink.str) || (sink.str != null ==> fresh(sink.str))
      ensures start < i < |fmt| && k <= |args| && GoodItem(item)
      ensures EarlyFlushes(TextFrom(fmt, start))
              == (if IsFieldAttribute(fmt[start]) then 1 else 0) + EarlyFlushes(TextFrom(fmt, i))
      ensures Directive(TextFrom(fmt, i), item, args[k..], attrs) == Some(outcome)
    {
      hide Valid;
      if IsModifier(fmt[start]) {
        i, item, k := Modify(fmt, start, before, args, first, attrs);
      } else {
        SkipOne(fmt, start, before, args[first..], attrs);
        i, item, k := start + 1, before, first;
        if IsFieldAttribute(fmt[start]) {
          PSetAttr(FieldAttributeOf(attrs, fmt[start]));
        }
      }
    }

    /** The conversion that ends a directive. */
    method PrintItem(c: wchar, item: Item, args: seq<Arg>, first: nat, ghost field: seq<wchar>) returns (k: nat)
      requires Valid() && GoodArgs(args) && first <= |args| && GoodItem(item)
      requires Converted(c, item, args[first..]).Some? && Converted(c, item, args[first..]).value.0 == field
      requires Room(|Crlf(field)|)
      modifies this`pos, this`len, this`emitted, buffer, sink, sink.str
      ensures Valid() && emitted == old(emitted) + Crlf(field)
      ensures sink.str == old(sink.str) || (sink.str != null ==> fresh(sink.str))
      ensures k <= |args| && args[k..] == Converted(c, item, args[first..]).value.1
    {
      hide Valid;
      k := first;
      if TakesArg(c) {
        var chars := ItemText(c, item, args[k]);
        ArgTextNoNul(c, item, args[k]);
        PItem(chars, ItemFor(c, item), ArgText(c, item, args[k]));
        k := k + 1;
      } else {
        var chars := [if c == PERCENT then PERCENT else QUESTION];
        PItem(chars + [0], item, chars);
      }
    }

    /** `_Print` on a fresh state: the text of the whole format, flushed at the end. */
    method Run(fmt: seq<wchar>, args: seq<Arg>) returns (n: uint64)
      requires Valid() && emitted == [] && marks == [] && IsString(fmt) && GoodArgs(args)
      requires Expand(Text(fmt), args, attrs).Some?
      requires Room(|Crlf(Expand(Text(fmt), args, attrs).value)|)
      modifies this, buffer, sink, sink.str
      ensures Consistent() && sink.received == Crlf(Expand(Text(fmt), args, attrs).value) && sink.outputs > 0
      ensures n == Word(|Crlf(Expand(Text(fmt), args, attrs).value)|)
      ensures attrs == PLAIN ==>
                sink.texts == Flushed(CutOf(sink.received, MarksOf(Text(fmt), args, 0))).texts && sink.Told()
      ensures sink.str == old(sink.str) || (sink.str != null ==> fresh(sink.str))
    {
      hide Valid, Directive, Expand, MarksOf, EarlyFlushes, Times, CutOf, Flushed;
      ghost var whole := Expand(Text(fmt), args, attrs).value;
      ghost var done: seq<wchar> := [];
      var i: nat, k: nat := 0, 0;
      assert TextFrom(fmt, 0) == Text(fmt) && args[0..] == args;
      while fmt[i] != 0
        invariant i < |fmt| && k <= |args|
        invariant Remaining(fmt, i, args[k..], attrs, done, whole)
        invariant Valid() && emitted == Crlf(done)
        invariant attrs == PLAIN ==>
                    marks + MarksOf(TextFrom(fmt, i), args[k..], |emitted|) == MarksOf(Text(fmt), args, 0)
        invariant sink.str == old(sink.str) || (sink.str != null ==> fresh(sink.str))
        decreases |fmt| - i
      {
        ghost var piece := NextPiece(fmt, i, args[k..], attrs, done, whole);
        ghost var at := |emitted|;
        NextMarks(fmt, i, args[k..], at, marks);
        if fmt[i] != PERCENT {
          PPutc(fmt[i]);
          i := i + 1;
        } else {
          i, k := PrintDirective(fmt, i + 1, args, k, piece);
        }
        done := done + piece.text;
      }
      NothingRemains(fmt, i, args[k..], attrs, done, whole, |emitted|);
      assert marks + [] == marks;
      n := Finish();
    }

    /** The last flush, and the length. */
    method Finish() returns (n: uint64)
      requires Valid()
      modifies this`pos, buffer, sink, sink.str
      ensures Consistent() && sink.received == emitted && sink.outputs > 0 && n == Word(|emitted|)
      ensures sink.texts == Flushed(CutOf(emitted, marks)).texts
      ensures sink.str == old(sink.str) || (sink.str != null ==> fresh(sink.str))
    {
      hide CutOf, Sink.Valid, Sink.Told;
      PFlush();
      n := len;
    }
  }

  /** How a format goes on where it has been read to. */
  lemma NextMarks(fmt: seq<wchar>, i: nat, args: seq<Arg>, at: nat, marks: seq<nat>)
    requires IsString(fmt) && i < |fmt| && fmt[i] != 0
    ensures i + 1 < |fmt|
    ensures fmt[i] != PERCENT ==>
              MarksOf(TextFrom(fmt, i), args, at) == MarksOf(TextFrom(fmt, i + 1), args, at + |Crlf([fmt[i]])|)
    ensures fmt[i] == PERCENT && Directive(TextFrom(fmt, i + 1), NEW_ITEM, args, PLAIN).Some? ==>
              var d := Directive(TextFrom(fmt, i + 1), NEW_ITEM, args, PLAIN).value;
              marks + MarksOf(TextFrom(fmt, i), args, at)
              == marks + Times(at, EarlyFlushes(TextFrom(fmt, i + 1))) + MarksOf(d.rest, d.args, at + |Crlf(d.text)|)
  {
    assert TextFrom(fmt, i)[1..] == TextFrom(fmt, i + 1);
  }

  lemma NothingRemains(fmt: seq<wchar>, i: nat, args: seq<Arg>, a: Attributes, done: seq<wchar>, whole: seq<wchar>, at: nat)
    requires IsString(fmt) && i < |fmt| && fmt[i] == 0 && Remaining(fmt, i, args, a, done, whole)
    ensures done == whole && MarksOf(TextFrom(fmt, i), args, at) == []
  {
    assert TextFrom(fmt, i) == [];
  }

  function Times(n: nat, k: nat): seq<nat> {
    seq(k, _ => n)
  }

  lemma TimesNone(marks: seq<nat>, at: nat)
    ensures marks + Times(at, 0) == marks
  {}

  lemma TimesSnoc(marks: seq<nat>, at: nat, k: nat)
    ensures marks + Times(at, k) + [at] == marks + Times(at, k + 1)
  {
    assert Times(at, k) + [at] == Times(at, k + 1);
  }

  /** The attributes of a single field that a directive sets, printing to a string: for each, what waits
      is passed on before the text of the directive. */
  function EarlyFlushes(t: seq<wchar>): nat
    decreases |t|
  {
    if t == [] then 0
    else if IsFlag(t[0]) || t[0] == 42 || IsAttribute(t[0]) then EarlyFlushes(t[1..])
    else if IsDigit(t[0]) then EarlyFlushes(AfterDigits(t))
    else if IsFieldAttribute(t[0]) then 1 + EarlyFlushes(t[1..])
    else 0
  }

  /** How much of the text of a format has been put out at each such flush, from `at` on. */
  function MarksOf(t: seq<wchar>, args: seq<Arg>, at: nat): seq<nat>
    decreases |t|
  {
    if t == [] then []
    else if t[0] != PERCENT then MarksOf(t[1..], args, at + |Crlf([t[0]])|)
    else
      var d := Directive(t[1..], NEW_ITEM, args, PLAIN);
      if d.None? then []
      else Times(at, EarlyFlushes(t[1..])) + MarksOf(d.value.rest, d.value.args, at + |Crlf(d.value.text)|)
  }

  /** The flags, '*' and digits: they only change the item. */
  predicate IsModifier(c: wchar) {
    IsFlag(c) || c == 42 || IsDigit(c)
  }

  function FieldAttributeOf(a: Attributes, c: wchar): nat
    requires IsFieldAttribute(c)
  {
    if c == 110 then a.norm else if c == 104 then a.highlight else a.error
  }

  /** The field of a closing conversion and the arguments it leaves. */
  function Converted(c: wchar, item: Item, args: seq<Arg>): Option<(seq<wchar>, seq<Arg>)> {
    if c == PERCENT then Some((Field([PERCENT], item), args))
    else if !TakesArg(c) then Some((Field([QUESTION], item), args))
    else if args != [] && Fits(c, args[0]) then
      Some((Field(ArgText(c, item, args[0]), ItemFor(c, item)), args[1..]))
    else None
  }

  lemma SkipOne(fmt: seq<wchar>, i: nat, item: Item, args: seq<Arg>, a: Attributes)
    requires IsString(fmt) && i < |fmt|
    requires IsFieldAttribute(fmt[i]) || (IsAttribute(fmt[i]) && AttributeOf(a, fmt[i]) == 0)
    ensures i + 1 < |fmt|
    ensures Directive(TextFrom(fmt, i), item, args, a) == Directive(TextFrom(fmt, i + 1), item, args, a)
    ensures EarlyFlushes(TextFrom(fmt, i))
            == (if IsFieldAttribute(fmt[i]) then 1 else 0) + EarlyFlushes(TextFrom(fmt, i + 1))
  {
    assert TextFrom(fmt, i)[1..] == TextFrom(fmt, i + 1);
  }

  lemma NoneLeft(fmt: seq<wchar>, i: nat, a: Attributes)
    requires IsString(fmt) && i < |fmt| && !IsModifier(fmt[i]) && !IsFieldAttribute(fmt[i])
    requires IsAttribute(fmt[i]) ==> AttributeOf(a, fmt[i]) != 0
    ensures a == PLAIN ==> EarlyFlushes(TextFrom(fmt, i)) == 0
  {}

  lemma LastOne(fmt: seq<wchar>, i: nat, item: Item, args: seq<Arg>, a: Attributes)
    requires IsString(fmt) && i < |fmt| && !IsModifier(fmt[i]) && !IsFieldAttribute(fmt[i])
    requires IsAttribute(fmt[i]) ==> AttributeOf(a, fmt[i]) != 0
    requires Directive(TextFrom(fmt, i), item, args, a).Some?
    ensures i + 1 < |fmt|
    ensures var o := Directive(TextFrom(fmt, i), item, args, a).value;
            && o.rest == TextFrom(fmt, i + 1)
            && (IsAttribute(fmt[i]) ==> o.text == [] && o.args == args)
            && (!IsAttribute(fmt[i]) ==> Converted(fmt[i], item, args) == Some((o.text, o.args)))
  {
    assert TextFrom(fmt, i)[1..] == TextFrom(fmt, i + 1);
  }

  /** A flag, a '*' or the digits of a width. */
  method Modify(fmt: seq<wchar>, start: nat, item: Item, args: seq<Arg>, first: nat, a: Attributes)
    returns (i: nat, it: Item, k: nat)
    requires IsString(fmt) && start < |fmt| && first <= |args| && GoodItem(item) && IsModifier(fmt[start])
    requires Directive(TextFrom(fmt, start), item, args[first..], a).Some?
    ensures start < i < |fmt| && first <= k <= |args| && GoodItem(it)
    ensures Directive(TextFrom(fmt, i), it, args[k..], a) == Directive(TextFrom(fmt, start), item, args[first..], a)
    ensures EarlyFlushes(TextFrom(fmt, i)) == EarlyFlushes(TextFrom(fmt, start))
  {
    var c := fmt[start];
    i, it, k := start + 1, item, first;
    assert TextFrom(fmt, start)[1..] == TextFrom(fmt, start + 1);
    if IsFlag(c) {
      it := WithFlag(item, c);
    } else if c == 42 {
      it := SetWidth(item, args[k].bits);
      k := k + 1;
    } else {
      var v;
      i, v := ReadWidth(fmt, start);
      it := SetWidth(item, v);
    }
  }

  method ReadWidth(fmt: seq<wchar>, start: nat) returns (i: nat, v: uint64)
    requires IsString(fmt) && start < |fmt| && IsDigit(fmt[start])
    ensures start < i < |fmt| && TextFrom(fmt, i) == AfterDigits(TextFrom(fmt, start))
    ensures v == WidthValue(TextFrom(fmt, start), 0)
  {
    i, v := start, 0;
    while IsDigit(fmt[i])
      invariant start <= i < |fmt| && (i == start ==> v == 0)
      invariant AfterDigits(TextFrom(fmt, i)) == AfterDigits(TextFrom(fmt, start))
      invariant WidthValue(TextFrom(fmt, i), v) == WidthValue(TextFrom(fmt, start), 0)
      decreases |fmt| - i
    {
      assert TextFrom(fmt, i)[1..] == TextFrom(fmt, i + 1);
      v := Word(v * 10 + (fmt[i] - 48));
      i := i + 1;
    }
  }

  /** The characters of a converted argument: its own, or those left in Scratch. */
  method ItemText(c: wchar, item: Item, arg: Arg) returns (chars: seq<wchar>)
    requires Fits(c, arg)
    ensures Holds(chars, ArgText(c, item, arg))
  {
    match arg
    case String(s) =>
      chars := (if s.None? then NULL_TEXT else s.value) + [0];
    case Object(text) =>
      chars := text + [0];
    case Bits(v) =>
      var scratch := new wchar[PRINT_ITEM_BUFFER_LEN];
      if c == 99 {
        scratch[0] := v % 0x1_0000;
        scratch[1] := 0;
      } else if c == 88 || c == 120 {
        ValueToHex(scratch, if item.long then v else Low32(v));
      } else if c == 117 {
        ValueToString(scratch, item.comma, Signed(if item.long then v else Low32(v)));
      } else {
        ValueToString(scratch, item.comma, if item.long then Signed(v) else Signed32(v));
      }
      chars := scratch[..];
  }

  /** `done` is the text up to position i of the format, `whole` all of it. */
  ghost predicate Remaining(fmt: seq<wchar>, i: nat, args: seq<Arg>, a: Attributes, done: seq<wchar>, whole: seq<wchar>)
    requires IsString(fmt) && i < |fmt|
  {
    && Expand(TextFrom(fmt, i), args, a).Some?
    && done + Expand(TextFrom(fmt, i), args, a).value == whole
  }

  /** The next character or directive of a format, as an outcome. */
  lemma NextPiece(fmt: seq<wchar>, i: nat, args: seq<Arg>, a: Attributes, done: seq<wchar>, whole: seq<wchar>)
    returns (piece: Outcome)
    requires IsString(fmt) && i < |fmt| && fmt[i] != 0 && Remaining(fmt, i, args, a, done, whole)
    ensures i + 1 < |fmt|
    ensures fmt[i] != PERCENT ==> piece == Outcome([fmt[i]], TextFrom(fmt, i + 1), args)
    ensures fmt[i] == PERCENT ==> Directive(TextFrom(fmt, i + 1), NEW_ITEM, args, a) == Some(piece)
    ensures Crlf(done + piece.text) == Crlf(done) + Crlf(piece.text)
    ensures |Crlf(done)| + |Crlf(piece.text)| <= |Crlf(whole)|
    ensures forall j: nat | j < |fmt| && TextFrom(fmt, j) == piece.rest ::
              Remaining(fmt, j, piece.args, a, done + piece.text, whole)
  {
    hide Directive, Crlf;
    var t := TextFrom(fmt, i);
    assert t[1..] == TextFrom(fmt, i + 1);
    piece := if fmt[i] != PERCENT then Outcome([fmt[i]], t[1..], args)
             else Directive(t[1..], NEW_ITEM, args, a).value;
    CrlfConcat(done, piece.text);
    var rest := Expand(piece.rest, piece.args, a).value;
    assert done + piece.text + rest == done + (piece.text + rest) == whole;
    CrlfConcat(done + piece.text, rest);
  }

  function Padding(c: wchar, from: nat, to: nat): seq<wchar> {
    Repeat(c, if from < to then to - from else 0)
  }

  /** The four parts `PITEM` puts out, in this order. */
  function Arranged(item: Item, n: nat, width: nat, fieldWidth: nat, text: seq<wchar>): seq<wchar>
    requires n <= |text|
  {
    (if item.padBefore then Padding(SPACE, width, fieldWidth) else []) + Justified(item, n, width, fieldWidth, text)
  }

  function Justified(item: Item, n: nat, width: nat, fieldWidth: nat, text: seq<wchar>): seq<wchar>
    requires n <= |text|
  {
    (Padding(item.pad, n, width) + Crlf(text[..n]))
    + (if !item.padBefore then Padding(SPACE, width, fieldWidth) else [])
  }

  lemma FieldParts(text: seq<wchar>, item: Item, n: nat, width: nat, fieldWidth: nat)
    requires GoodItem(item) && n == Taken(text, item) && width == FullWidth(text, item)
    requires fieldWidth == if item.fieldWidth == NO_WIDTH then n else item.fieldWidth
    ensures Arranged(item, n, width, fieldWidth, text) == Crlf(Field(text, item))
  {
    CrlfField(text, item);
  }

  lemma PrefixStep(text: seq<wchar>, i: nat, n: nat)
    requires i < n <= |text|
    ensures Crlf(text[..i + 1]) == Crlf(text[..i]) + Crlf([text[i]])
    ensures |Crlf(text[..i + 1])| <= |Crlf(text[..n])|
  {
    assert text[..i + 1] == text[..i] + [text[i]];
    CrlfConcat(text[..i], [text[i]]);
    assert text[..n][..i + 1] == text[..i + 1];
    CrlfPrefix(text[..n], i + 1);
  }

  /** `VSPrint`: the longest prefix of the expanded text that StrSize allows, NUL-terminated when
      StrSize allows any, and nothing else of the buffer touched. With a StrSize of 2 or 3 the buffer
      is left as it was. */
  method VSPrint(target: array<wchar>, strSize: uint64, fmt: seq<wchar>, args: seq<Arg>) returns (n: nat)
    requires IsString(fmt) && GoodArgs(args) && Expand(Text(fmt), args, PLAIN).Some?
    requires VSPrintLimit(strSize) < target.Length || |Printed(fmt, args)| < target.Length
    modifies target
    ensures n == Min(|Printed(fmt, args)|, VSPrintLimit(strSize))
    ensures n < target.Length && target[..n] == Printed(fmt, args)[..n]
    ensures strSize != 2 && strSize != 3 ==> target[n] == 0
    ensures strSize == 2 || strSize == 3 ==> n == 0 && target[..] == old(target[..])
    ensures forall j | n < j < target.Length :: target[j] == old(target[j])
  {
    VSPrintLimits(strSize);
    var spc := new Sink.Fixed(target, strSize, |Printed(fmt, args)|);
    var ps := new PrintState(spc, PLAIN);
    var _ := ps.Run(fmt, args);
    n := spc.len;
  }

  /** The texts that printing passes on one by one: a full buffer, what waits at an attribute, and the
      rest at the end. */
  function Passed(fmt: seq<wchar>, args: seq<Arg>): (texts: seq<seq<wchar>>)
    requires IsString(fmt) && Expand(Text(fmt), args, PLAIN).Some?
    ensures texts != []
  {
    Flushed(CutOf(Printed(fmt, args), MarksOf(Text(fmt), args, 0))).texts
  }

  /** Together they are all that is printed, none is longer than the buffer, and without attributes only
      the last one does not fill it. */
  lemma PassedIsPrinted(fmt: seq<wchar>, args: seq<Arg>)
    requires IsString(fmt) && Expand(Text(fmt), args, PLAIN).Some?
    ensures Joined(Passed(fmt, args)) == Printed(fmt, args)
    ensures forall k | 0 <= k < |Passed(fmt, args)| :: |Passed(fmt, args)[k]| < 200
    ensures MarksOf(Text(fmt), args, 0) == [] ==>
              forall k | 0 <= k < |Passed(fmt, args)| - 1 :: |Passed(fmt, args)[k]| == 199
  {
    var marks := MarksOf(Text(fmt), args, 0);
    var c := CutOf(Printed(fmt, args), marks);
    CutKeeps(Printed(fmt, args), marks);
    FlushedJoins(c);
    assert Joined(Passed(fmt, args)) + [] == Joined(Passed(fmt, args));
    CutEvenly(Printed(fmt, args));
  }

  /** "a%n%b": at the attribute the "a" that waits is passed on by itself. */
  lemma PassedExample()
    ensures var fmt := [97, 37, 110, 37, 98, 0];
            IsString(fmt) && Expand(Text(fmt), [], PLAIN).Some? && Passed(fmt, []) == [[97], [37, 98]]
  {
    hide Expand, MarksOf, CutOf, Crlf;
    var fmt: seq<wchar> := [97, 37, 110, 37, 98, 0];
    assert Text(fmt) == [97, 37, 110, 37, 98];
    ExpandedExample();
    MarksExample();
    NoNewlines([97, 37, 98]);
    CutExample();
  }

  lemma ExpandedExample()
    ensures Expand([97, 37, 110, 37, 98], [], PLAIN) == Some([97, 37, 98])
  {
    hide Directive, Expand;
    var b: seq<wchar>, none: seq<Arg> := [98], [];
    ExpandNothing();
    ExpandCons(98, [], none);
    assert b + [] == b;
    PercentHere(b);
    ExpandDirective([110, 37] + b, none, Outcome([37], b, none));
    ExpandCons(97, [37] + ([110, 37] + b), none);
    assert [37] + b == [37, 98] && [97] + [37, 98] == [97, 37, 98];
    assert [97] + ([37] + ([110, 37] + b)) == [97, 37, 110, 37, 98];
  }

  lemma ExpandNothing()
    ensures Expand([], [], PLAIN) == Some([])
  {}

  lemma ExpandDirective(t: seq<wchar>, args: seq<Arg>, d: Outcome)
    requires Directive(t, NEW_ITEM, args, PLAIN) == Some(d)
    ensures Expand([37] + t, args, PLAIN) == Prefixed(d.text, Expand(d.rest, d.args, PLAIN))
    ensures MarksOf([37] + t, args, 1) == Times(1, EarlyFlushes(t)) + MarksOf(d.rest, d.args, 1 + |Crlf(d.text)|)
  {
    assert ([37] + t)[1..] == t;
  }

  lemma MarksExample()
    ensures MarksOf([97, 37, 110, 37, 98], [], 0) == [1]
  {
    hide Directive, Expand;
    var b: seq<wchar>, none: seq<Arg> := [98], [];
    PercentHere(b);
    ExpandDirective([110, 37] + b, none, Outcome([37], b, none));
    FlushesHere();
    assert MarksOf(b, none, 2) == [] by {
      assert b[1..] == [];
    }
    assert [97, 37, 110, 37, 98][1..] == [37] + ([110, 37] + b) && |Crlf([97])| == 1 && |Crlf([37])| == 1;
    assert [110, 37] + b == [110, 37, 98];
    assert Times(1, 1) + [] == [1];
  }

  lemma FlushesHere()
    ensures EarlyFlushes([110, 37, 98]) == 1
  {
    assert [110, 37, 98][1..] == [37, 98];
    assert EarlyFlushes([37, 98]) == 0;
  }

  lemma ExpandCons(c: wchar, t: seq<wchar>, args: seq<Arg>)
    requires c != PERCENT && Expand(t, args, PLAIN).Some?
    ensures Expand([c] + t, args, PLAIN) == Some([c] + Expand(t, args, PLAIN).value)
  {
    assert ([c] + t)[1..] == t;
  }

  lemma PercentHere(rest: seq<wchar>)
    ensures Directive([110, 37] + rest, NEW_ITEM, [], PLAIN) == Some(Outcome([37], rest, []))
  {
    assert ([110, 37] + rest)[1..] == [37] + rest && ([37] + rest)[1..] == rest;
    assert Field([37], NEW_ITEM) == [37];
  }

  lemma {:induction false} NoNewlines(t: seq<wchar>)
    requires NEWLINE !in t
    ensures Crlf(t) == t
  {
    if t != [] {
      NoNewlines(t[1..]);
    }
  }

  lemma CutExample()
    ensures CutOf([97, 37, 98], [1]) == Cut([[97]], [37, 98])
  {
    CutFirst();
    hide CutOf;
    CutSnoc([97], [1], 37);
    assert [97] + [37] == [97, 37] && [] + [37] == [37];
    CutSnoc([97, 37], [1], 98);
    assert [97, 37] + [98] == [97, 37, 98] && [37] + [98] == [37, 98];
  }

  lemma CutFirst()
    ensures CutOf([97], [1]) == Cut([[97]], [])
  {
    CutNothing();
    hide CutOf;
    CutSnoc([], [], 97);
    assert [] + [97] == [97];
    CutMarked([97], []);
    assert [] + [1] == [1];
  }

  /** Where VPoolPrint asks for its allocations, and how much is lost by those that are refused. */
  function Asked(granted: nat -> bool, fmt: seq<wchar>, args: seq<Arg>): seq<nat>
    requires IsString(fmt) && Expand(Text(fmt), args, PLAIN).Some?
  {
    GrowthOf(Passed(fmt, args), granted).asked
  }

  function Lost(granted: nat -> bool, fmt: seq<wchar>, args: seq<Arg>): (n: nat)
    requires IsString(fmt) && Expand(Text(fmt), args, PLAIN).Some?
    ensures n <= |Printed(fmt, args)|
  {
    PassedIsPrinted(fmt, args);
    NothingLostIff(Passed(fmt, args), granted);
    LostBy(Asked(granted, fmt, args), granted)
  }

  /** `VPoolPrint`: the printed text, NUL-terminated, without what the last refused allocation lost;
      NULL exactly when the last allocation is refused. Nothing is lost exactly when every allocation
      that is refused was asked for before anything was to be kept. */
  method VPoolPrint(granted: nat -> bool, fmt: seq<wchar>, args: seq<Arg>) returns (str: array?<wchar>)
    requires IsString(fmt) && GoodArgs(args) && Expand(Text(fmt), args, PLAIN).Some?
    ensures var asked := Asked(granted, fmt, args);
            && asked != [] && (str == null <==> !granted(|asked| - 1))
            && (Lost(granted, fmt, args) == 0 <==> forall k | 0 <= k < |asked| && !granted(k) :: asked[k] == 0)
    ensures str != null ==> fresh(str) && Holds(str[..], Printed(fmt, args)[Lost(granted, fmt, args)..])
    ensures (forall k :: granted(k)) ==> str != null && Lost(granted, fmt, args) == 0
  {
    hide Directive, Expand, MarksOf, CutOf, Joined, GrowthOf, LostBy;
    var spc := new Sink.Pool(granted);
    var ps := new PrintState(spc, PLAIN);
    var _ := ps.Run(fmt, args);
    NothingLostIff(Passed(fmt, args), granted);
    str := spc.str;
    if str != null {
      assert str[..][..spc.len] == str[..spc.len];
    }
  }

  /** Only the first allocation refused: exactly the first text passed on is lost. */
  lemma {:induction false} FirstRefused(texts: seq<seq<wchar>>, granted: nat -> bool)
    requires texts != [] && !granted(0) && forall k: nat | k > 0 :: granted(k)
    ensures var g := GrowthOf(texts, granted);
            g.asked != [] && g.asked[0] == |texts[0]| && LostBy(g.asked, granted) == |texts[0]|
    decreases |texts|
  {
    var n := |texts| - 1;
    assert Joined(texts) == Joined(texts[..n]) + texts[n];
    if n == 0 {
      assert texts[..0] == [];
      LostSnoc([], |texts[0]|, granted);
      assert [] + [|texts[0]|] == [|texts[0]|];
    } else {
      FirstRefused(texts[..n], granted);
      LostSnoc(GrowthOf(texts[..n], granted).asked, |Joined(texts)|, granted);
    }
  }

  /** The loss of the example as it happens: the string that is left is "b". */
  method LoseBeginning(a: array<wchar>, b: array<wchar>) returns (str: array<wchar>)
    requires a[..] == [97, 0] && b[..] == [98, 0]
    ensures Holds(str[..], [98])
  {
    var spc := new Sink.Pool(k => k != 0);
    spc.Output(a, [97]);
    spc.Output(b, [98]);
    str := spc.str;
  }

  /** Printing to a string: no attributes. */
  const PLAIN := Attributes(0, 0, 0)

  /** Everything a format puts out. */
  function Printed(fmt: seq<wchar>, args: seq<Arg>): seq<wchar>
    requires IsString(fmt) && Expand(Text(fmt), args, PLAIN).Some?
  {
    Crlf(Expand(Text(fmt), args, PLAIN).value)
  }
}
