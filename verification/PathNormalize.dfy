/** The path normaliser of path_timeout.h.

    The reference definition splits a path at its separators, resolves `.` and `..` on a stack
    and joins what is left. The method works in place on a buffer and a stack of offsets. */
module PathNormalize {
  import opened Bytes
  import opened Utf8Segment

  const MAX_BYTES: nat := 1023
  const MAX_CHARS: nat := 260
  const COMPONENT_BYTES: nat := 767
  const COMPONENT_CHARS: nat := 255
  const MAX_DEPTH: nat := 160

  datatype Error = Empty | TooLong | ComponentTooLong | Nul | BadCharacter | WrongKind | RootTraversal

  datatype Result<+T> = Ok(value: T) | Err(error: Error)

  /** Which kind of path the caller wants. */
  datatype Kind = Any | Absolute | Relative

  type Segment = seq<Byte>

  const BACKSLASH: Byte := 0x5C
  const DOT: Segment := [0x2E]
  const DOT_DOT: Segment := [0x2E, 0x2E]

  predicate Separator(b: Byte) { b == 0x5C || b == 0x2F }

  function Upper(b: Byte): Byte { if 0x61 <= b <= 0x7A then b - 32 else b }

  predicate Alpha(b: Byte) { 0x41 <= Upper(b) <= 0x5A }

  predicate HasDrive(s: seq<Byte>) { |s| >= 3 && Alpha(s[0]) && s[1] == 0x3A && Separator(s[2]) }

  // ------------------------------------------------------------------ splitting and joining

  /** The length of the leading run without separators. */
  function RunLength(s: seq<Byte>): (n: nat)
    ensures n <= |s| && (forall i :: 0 <= i < n ==> !Separator(s[i])) && (n < |s| ==> Separator(s[n]))
  {
    if s == [] || Separator(s[0]) then 0 else 1 + RunLength(s[1..])
  }

  /** The non-empty runs between separators. */
  function Split(s: seq<Byte>): seq<Segment>
    decreases |s|
  {
    if s == [] then []
    else if Separator(s[0]) then Split(s[1..])
    else [s[..RunLength(s)]] + Split(s[RunLength(s)..])
  }

  function Join(stack: seq<Segment>): seq<Byte> {
    if stack == [] then []
    else if |stack| == 1 then stack[0]
    else stack[0] + [BACKSLASH] + Join(stack[1..])
  }

  predicate Plain(seg: Segment) { seg != [] && forall i :: 0 <= i < |seg| ==> !Separator(seg[i]) }

  predicate AllPlain(stack: seq<Segment>) { forall i :: 0 <= i < |stack| ==> Plain(stack[i]) }

  lemma {:induction false} JoinAppend(stack: seq<Segment>, seg: Segment)
    ensures Join(stack + [seg]) == if stack == [] then seg else Join(stack) + [BACKSLASH] + seg
  {
    if stack == [] {
      assert stack + [seg] == [seg];
    } else {
      assert (stack + [seg])[1..] == stack[1..] + [seg];
      JoinAppend(stack[1..], seg);
      if |stack| == 1 {
        assert stack[1..] == [];
      }
    }
  }

  lemma RunLengthIs(s: seq<Byte>, n: nat)
    requires n <= |s| && (forall i :: 0 <= i < n ==> !Separator(s[i])) && (n < |s| ==> Separator(s[n]))
    ensures RunLength(s) == n
  {
  }

  /** Splitting undoes joining. */
  lemma {:induction false} SplitJoin(stack: seq<Segment>)
    requires AllPlain(stack)
    ensures Split(Join(stack)) == stack
  {
    if stack != [] {
      var s, head := Join(stack), stack[0];
      RunLengthIs(s, |head|);
      assert s[..|head|] == head;
      if |stack| == 1 {
        assert s[|head|..] == [];
      } else {
        SplitJoin(stack[1..]);
        assert s[|head|..] == [BACKSLASH] + Join(stack[1..]);
        assert s[|head|..][1..] == Join(stack[1..]);
      }
      assert stack == [head] + stack[1..];
    }
  }

  // ------------------------------------------------------------------ the reference definition

  ghost predicate IsValid(seg: Segment) { exists cps :: Decodes(seg, cps) }

  /** The number of characters of a valid segment. */
  ghost function CharsOf(seg: Segment): nat
    requires IsValid(seg)
  {
    var cps :| Decodes(seg, cps);
    |cps|
  }

  /** A segment that can be part of a normalised path. */
  ghost predicate Good(seg: Segment) {
    && Plain(seg) && seg != DOT && seg != DOT_DOT
    && |seg| <= COMPONENT_BYTES && IsValid(seg) && CharsOf(seg) <= COMPONENT_CHARS
  }

  ghost predicate AllGood(stack: seq<Segment>) { forall i :: 0 <= i < |stack| ==> Good(stack[i]) }

  /** Characters of the joined stack, separators included. */
  ghost function JoinChars(stack: seq<Segment>): nat
    requires AllGood(stack)
  {
    if stack == [] then 0
    else JoinChars(stack[..|stack| - 1]) + CharsOf(stack[|stack| - 1]) + (if |stack| > 1 then 1 else 0)
  }

  ghost predicate BadNul(seg: Segment) {
    exists i: nat, cps :: Stuck(seg, i, cps) && seg[i] == 0
  }

  /** One segment: `.` stays, `..` pops, anything else is checked and pushed. */
  ghost function Resolve1(stack: seq<Segment>, seg: Segment, root: nat): (r: Result<seq<Segment>>)
    requires AllGood(stack) && Plain(seg)
    ensures r.Ok? ==> AllGood(r.value)
  {
    if seg == DOT then Ok(stack)
    else if seg == DOT_DOT then
      if stack == [] then Err(RootTraversal) else Ok(stack[..|stack| - 1])
    else if |seg| > COMPONENT_BYTES then Err(ComponentTooLong)
    else if !IsValid(seg) then Err(if BadNul(seg) then Nul else BadCharacter)
    else if CharsOf(seg) > COMPONENT_CHARS then Err(ComponentTooLong)
    else if |stack| >= MAX_DEPTH then Err(TooLong)
    else if root + JoinChars(stack + [seg]) > MAX_CHARS then Err(TooLong)
    else Ok(stack + [seg])
  }

  ghost function Resolve(stack: seq<Segment>, segs: seq<Segment>, root: nat): (r: Result<seq<Segment>>)
    requires AllGood(stack) && AllPlain(segs)
    ensures r.Ok? ==> AllGood(r.value)
    decreases |segs|
  {
    if segs == [] then Ok(stack)
    else match Resolve1(stack, segs[0], root)
      case Err(e) => Err(e)
      case Ok(next) => Resolve(next, segs[1..], root)
  }

  lemma {:induction false} SplitIsPlain(s: seq<Byte>)
    ensures AllPlain(Split(s))
    decreases |s|
  {
    if s != [] {
      if Separator(s[0]) {
        SplitIsPlain(s[1..]);
      } else {
        SplitIsPlain(s[RunLength(s)..]);
      }
    }
  }

  /** The normalised text of a resolved stack. */
  function Text(drive: seq<Byte>, stack: seq<Segment>): seq<Byte> {
    if drive == [] && stack == [] then DOT else drive + Join(stack)
  }

  function Drive(input: seq<Byte>): seq<Byte> {
    if HasDrive(input) then [Upper(input[0]), 0x3A, BACKSLASH] else []
  }

  ghost function Normalize(input: seq<Byte>, kind: Kind): Result<seq<Byte>> {
    if input == [] then Err(Empty)
    else if |input| > MAX_BYTES then Err(TooLong)
    else if (kind.Absolute? && !HasDrive(input)) || (kind.Relative? && HasDrive(input)) then Err(WrongKind)
    else if !HasDrive(input) && Separator(input[0]) then Err(WrongKind)
    else
      var root := |Drive(input)|;
      SplitIsPlain(input[root..]);
      match Resolve([], Split(input[root..]), root)
      case Err(e) => Err(e)
      case Ok(stack) => Ok(Text(Drive(input), stack))
  }

  // ------------------------------------------------------------------ never longer than the input

  function Weight(segs: seq<Segment>): nat {
    if segs == [] then 0 else Weight(segs[..|segs| - 1]) + |segs[|segs| - 1]| + 1
  }

  lemma {:induction false} WeightAppend(a: seq<Segment>, b: seq<Segment>)
    ensures Weight(a + b) == Weight(a) + Weight(b)
    decreases |b|
  {
    if b == [] {
      assert a + b == a;
    } else {
      assert (a + b)[..|a + b| - 1] == a + b[..|b| - 1];
      WeightAppend(a, b[..|b| - 1]);
    }
  }

  lemma {:induction false} JoinWeight(stack: seq<Segment>)
    requires stack != []
    ensures |Join(stack)| == Weight(stack) - 1
  {
    var front, last := stack[..|stack| - 1], stack[|stack| - 1];
    assert stack == front + [last];
    JoinAppend(front, last);
    if front != [] {
      JoinWeight(front);
    }
  }

  lemma {:induction false} SplitWeight(s: seq<Byte>)
    ensures Weight(Split(s)) <= |s| + 1
    ensures s != [] && Separator(s[0]) ==> Weight(Split(s)) <= |s|
    decreases |s|
  {
    if s != [] {
      if Separator(s[0]) {
        SplitWeight(s[1..]);
      } else {
        var n := RunLength(s);
        SplitWeight(s[n..]);
        WeightAppend([s[..n]], Split(s[n..]));
      }
    }
  }

  lemma {:induction false} ResolveWeight(stack: seq<Segment>, segs: seq<Segment>, root: nat)
    requires AllGood(stack) && AllPlain(segs) && Resolve(stack, segs, root).Ok?
    ensures Weight(Resolve(stack, segs, root).value) <= Weight(stack) + Weight(segs)
    decreases |segs|
  {
    hide Good;
    if segs != [] {
      assert segs == [segs[0]] + segs[1..];
      WeightAppend([segs[0]], segs[1..]);
      WeightAppend(stack, [segs[0]]);
      ResolveWeight(Resolve1(stack, segs[0], root).value, segs[1..], root);
    }
  }

  /** A normalised path is no longer than the path it came from. */
  lemma NormalizedIsNoLonger(input: seq<Byte>, kind: Kind)
    requires Normalize(input, kind).Ok?
    ensures |Normalize(input, kind).value| <= |input|
  {
    hide Resolve, Split, Join, Weight;
    var root := |Drive(input)|;
    var segs := Split(input[root..]);
    SplitIsPlain(input[root..]);
    SplitWeight(input[root..]);
    ResolveWeight([], segs, root);
    var stack := Resolve([], segs, root).value;
    WeightOfNothing();
    if stack != [] {
      JoinWeight(stack);
    }
  }

  lemma WeightOfNothing()
    ensures Weight([]) == 0 && Join([]) == []
  {
  }

  // ------------------------------------------------------------------ idempotence

  ghost predicate Bounded(stack: seq<Segment>, root: nat)
    requires AllGood(stack)
  {
    |stack| <= MAX_DEPTH && (stack != [] ==> root + JoinChars(stack) <= MAX_CHARS)
  }

  lemma {:induction false} PrefixChars(stack: seq<Segment>, k: nat)
    requires AllGood(stack) && k <= |stack|
    ensures AllGood(stack[..k]) && JoinChars(stack[..k]) <= JoinChars(stack)
    decreases |stack|
  {
    if k == |stack| {
      assert stack[..k] == stack;
    } else {
      PrefixChars(stack[..|stack| - 1], k);
      assert stack[..|stack| - 1][..k] == stack[..k];
    }
  }

  lemma {:induction false} ResolveStaysBounded(stack: seq<Segment>, segs: seq<Segment>, root: nat)
    requires AllGood(stack) && Bounded(stack, root) && AllPlain(segs) && Resolve(stack, segs, root).Ok?
    ensures Bounded(Resolve(stack, segs, root).value, root)
    decreases |segs|
  {
    hide Good;
    if segs != [] {
      if stack != [] {
        PrefixChars(stack, |stack| - 1);
      }
      ResolveStaysBounded(Resolve1(stack, segs[0], root).value, segs[1..], root);
    }
  }

  /** Resolving the segments of a bounded stack pushes them all. */
  lemma PushesNext(stack: seq<Segment>, k: nat, root: nat)
    requires AllGood(stack) && Bounded(stack, root) && k < |stack|
    ensures AllGood(stack[..k]) && Plain(stack[k]) && Resolve1(stack[..k], stack[k], root) == Ok(stack[..k + 1])
  {
    hide CharsOf;
    PrefixChars(stack, k + 1);
    assert stack[..k + 1] == stack[..k] + [stack[k]];
    assert Good(stack[k]);
  }

  lemma {:induction false} ResolveRebuilds(stack: seq<Segment>, k: nat, root: nat)
    requires AllGood(stack) && Bounded(stack, root) && k <= |stack|
    ensures AllGood(stack[..k]) && AllPlain(stack[k..]) && Resolve(stack[..k], stack[k..], root) == Ok(stack)
    decreases |stack| - k
  {
    hide Resolve1, Good, Bounded;
    if k == |stack| {
      assert stack[..k] == stack;
    } else {
      PushesNext(stack, k, root);
      assert stack[k..][1..] == stack[k + 1..];
      ResolveRebuilds(stack, k + 1, root);
    }
  }

  /** No byte of an encoded text is a reserved ASCII character. */
  lemma {:induction false} TextHasNoColon(cps: seq<int>)
    requires IsText(cps)
    ensures 0x3A !in Encode(cps)
  {
    if cps != [] {
      TextHasNoColon(cps[1..]);
    }
  }

  lemma {:induction false} JoinHasNoColon(stack: seq<Segment>)
    requires AllGood(stack)
    ensures 0x3A !in Join(stack)
  {
    hide Encode;
    if stack != [] {
      assert Good(stack[0]);
      var cps :| Decodes(stack[0], cps);
      TextHasNoColon(cps);
      JoinHasNoColon(stack[1..]);
    }
  }

  lemma JoinStartsPlain(stack: seq<Segment>)
    requires AllGood(stack) && stack != []
    ensures Join(stack) != [] && !Separator(Join(stack)[0])
  {
  }

  lemma GoodIsPlain(stack: seq<Segment>)
    requires AllGood(stack)
    ensures AllPlain(stack)
  {
  }

  lemma DotIsNormal(kind: Kind)
    requires !kind.Absolute?
    ensures Normalize(DOT, kind) == Ok(DOT)
  {
    assert RunLength(DOT) == 1 by { RunLengthIs(DOT, 1); }
    assert DOT[..1] == DOT && DOT[1..] == [] && Split([]) == [];
    assert Split(DOT) == [DOT] && [DOT][1..] == [];
    assert DOT[0..] == DOT && Drive(DOT) == [];
    assert Plain(DOT) && Resolve1([], DOT, 0) == Ok([]);
    assert Resolve([], [DOT], 0) == Ok([]);
  }

  /** What a normalised path looks like to a second pass. */
  lemma SecondPass(input: seq<Byte>, stack: seq<Segment>)
    requires AllGood(stack) && (HasDrive(input) || stack != [])
    ensures var t := Text(Drive(input), stack);
      && Drive(t) == Drive(input) && t[|Drive(input)|..] == Join(stack)
      && (Drive(input) == [] ==> t != [] && !Separator(t[0]))
  {
    hide Join, Good;
    var t := Text(Drive(input), stack);
    if HasDrive(input) {
      assert t[3..] == Join(stack);
    } else {
      JoinHasNoColon(stack);
      JoinStartsPlain(stack);
      assert t == Join(stack) && t[0..] == t;
    }
  }

  /** Normalising is idempotent: the result is accepted again, by any caller whom its kind suits,
      and comes back unchanged. */
  lemma NormalizeIsIdempotent(input: seq<Byte>, kind: Kind, again: Kind)
    requires Normalize(input, kind).Ok?
    requires if HasDrive(input) then !again.Relative? else !again.Absolute?
    ensures Normalize(Normalize(input, kind).value, again) == Normalize(input, kind)
  {
    hide Resolve, Split, Join, Good;
    NormalizedIsNoLonger(input, kind);
    var drive, root := Drive(input), |Drive(input)|;
    var segs := Split(input[root..]);
    SplitIsPlain(input[root..]);
    ResolveStaysBounded([], segs, root);
    var stack := Resolve([], segs, root).value;
    var t := Text(drive, stack);
    if drive == [] && stack == [] {
      DotIsNormal(again);
    } else {
      SecondPass(input, stack);
      GoodIsPlain(stack);
      SplitJoin(stack);
      ResolveRebuilds(stack, 0, root);
      assert stack[..0] == [] && stack[0..] == stack;
    }
  }

  // ------------------------------------------------------------------ what the definition means

  /** The same path written with backslashes only. */
  function Backslashed(s: seq<Byte>): (r: seq<Byte>)
    ensures |r| == |s|
  {
    seq(|s|, i requires 0 <= i < |s| => if s[i] == '/' as int then '\\' as int else s[i])
  }

  lemma {:induction false} SplitBackslashed(s: seq<Byte>)
    ensures Split(Backslashed(s)) == Split(s)
    decreases |s|
  {
    var t := Backslashed(s);
    if s != [] {
      if Separator(s[0]) {
        assert t[1..] == Backslashed(s[1..]);
        SplitBackslashed(s[1..]);
      } else {
        var n := RunLength(s);
        RunLengthIs(t, n);
        assert t[..n] == s[..n] && t[n..] == Backslashed(s[n..]);
        SplitBackslashed(s[n..]);
      }
    }
  }

  /** Slashes and backslashes mean the same. */
  lemma SlashesAreBackslashes(input: seq<Byte>, kind: Kind)
    ensures Normalize(Backslashed(input), kind) == Normalize(input, kind)
  {
    hide Resolve, Split, Join, Good;
    var root := |Drive(input)|;
    if |input| >= root {
      assert Backslashed(input)[root..] == Backslashed(input[root..]);
      SplitBackslashed(input[root..]);
    }
  }

  lemma {:induction false} JoinHasNoSlash(stack: seq<Segment>)
    requires AllPlain(stack)
    ensures forall i :: 0 <= i < |Join(stack)| ==> Join(stack)[i] != '/' as int
  {
    if stack != [] {
      assert Plain(stack[0]);
      JoinHasNoSlash(stack[1..]);
    }
  }

  /** No normalised path contains a slash. */
  lemma NormalizedHasNoSlash(input: seq<Byte>, kind: Kind)
    requires Normalize(input, kind).Ok?
    ensures forall i :: 0 <= i < |Normalize(input, kind).value| ==> Normalize(input, kind).value[i] != '/' as int
  {
    hide Resolve, Split, Join, Good;
    var root := |Drive(input)|;
    SplitIsPlain(input[root..]);
    var stack := Resolve([], Split(input[root..]), root).value;
    GoodIsPlain(stack);
    JoinHasNoSlash(stack);
  }

  /** A path is absolute if it begins with a letter, a colon and a separator, and then its normal form
      begins with the capital letter, a colon and a backslash. */
  lemma DriveMeans(letter: char, slash: char, rest: seq<Byte>, kind: Kind)
    requires 'a' <= letter <= 'z' || 'A' <= letter <= 'Z'
    requires slash == '/' || slash == '\\'
    ensures var input := [letter as int, ':' as int, slash as int] + rest;
      && HasDrive(input)
      && Drive(input) == [if letter <= 'Z' then letter as int else letter as int - 32, ':' as int, '\\' as int]
      && (Normalize(input, kind).Ok? ==> Drive(input) <= Normalize(input, kind).value)
  {
    hide Resolve, Split, Join, Good;
  }

  /** `.` changes nothing, `..` takes back the segment before it and cannot leave the root. */
  lemma DotsMean(stack: seq<Segment>, seg: Segment, rest: seq<Segment>, root: nat)
    requires AllGood(stack) && AllPlain(rest) && Plain(seg)
    ensures AllPlain([['.' as int]] + rest) && Resolve(stack, [['.' as int]] + rest, root) == Resolve(stack, rest, root)
    ensures AllPlain([['.' as int, '.' as int]] + rest)
    ensures Resolve([], [['.' as int, '.' as int]] + rest, root) == Err(RootTraversal)
    ensures Good(seg) && Resolve1(stack, seg, root).Ok? ==>
      && AllPlain([seg, ['.' as int, '.' as int]] + rest)
      && Resolve(stack, [seg, ['.' as int, '.' as int]] + rest, root) == Resolve(stack, rest, root)
  {
    hide JoinChars;
    var dot, dots: Segment := ['.' as int], ['.' as int, '.' as int];
    assert Plain(dot) && Plain(dots);
    assert ([dot] + rest)[1..] == rest && ([dots] + rest)[1..] == rest;
    assert ([seg, dots] + rest)[1..] == [dots] + rest;
    if Good(seg) && Resolve1(stack, seg, root).Ok? {
      assert (stack + [seg])[..|stack|] == stack;
      assert Resolve(stack, [seg, dots] + rest, root) == Resolve(stack + [seg], [dots] + rest, root);
    }
  }

  lemma {:induction false} EncodeConcat(a: seq<int>, b: seq<int>)
    requires IsText(a) && IsText(b)
    ensures IsText(a + b) && Encode(a + b) == Encode(a) + Encode(b)
  {
    if a == [] {
      assert a + b == b;
    } else {
      hide EncodeOne;
      assert (a + b)[1..] == a[1..] + b && (a + b)[0] == a[0];
      EncodeConcat(a[1..], b);
      assert EncodeOne(a[0]) + (Encode(a[1..]) + Encode(b)) == EncodeOne(a[0]) + Encode(a[1..]) + Encode(b);
    }
  }

  /** The characters counted for a stack are those of its text, separators included. */
  lemma {:induction false} CountsCharacters(stack: seq<Segment>) returns (cps: seq<int>)
    requires AllGood(stack)
    ensures Decodes(Join(stack), cps) && |cps| == JoinChars(stack)
    decreases |stack|
  {
    if stack == [] {
      cps := [];
    } else {
      hide Encode, EncodeOne, Join;
      var n := |stack| - 1;
      var front, last := stack[..n], stack[n];
      assert stack == front + [last] && Good(last);
      var own :| Decodes(last, own);
      OwnCharacters(last, own);
      JoinAppend(front, last);
      if n == 0 {
        cps := own;
        NoFront(stack);
      } else {
        var before := CountsCharacters(front);
        SeparatorText();
        EncodeConcat(before, [0x5C]);
        EncodeConcat(before + [0x5C], own);
        cps := before + [0x5C] + own;
      }
    }
  }

  lemma OwnCharacters(seg: Segment, cps: seq<int>)
    requires Decodes(seg, cps)
    ensures IsValid(seg) && CharsOf(seg) == |cps|
  {
    var other :| Decodes(seg, other) && CharsOf(seg) == |other|;
    DecodingIsUnique(seg, cps, other);
  }

  lemma NoFront(stack: seq<Segment>)
    requires AllGood(stack) && |stack| == 1
    ensures JoinChars(stack) == CharsOf(stack[0])
  {
    assert stack[..0] == [];
  }

  lemma SeparatorText()
    ensures IsText([0x5C]) && Encode([0x5C]) == [BACKSLASH]
  {
    assert [0x5C][1..] == [];
  }

  /** What is refused before any segment is looked at, in this order. */
  lemma RefusalsMean(input: seq<Byte>, kind: Kind)
    ensures input == [] ==> Normalize(input, kind) == Err(Empty)
    ensures |input| > 1023 ==> Normalize(input, kind) == Err(TooLong)
    ensures 0 < |input| <= 1023 && HasDrive(input) && kind.Relative? ==> Normalize(input, kind) == Err(WrongKind)
    ensures 0 < |input| <= 1023 && !HasDrive(input) && kind.Absolute? ==> Normalize(input, kind) == Err(WrongKind)
    ensures 0 < |input| <= 1023 && (input[0] == '/' as int || input[0] == '\\' as int) ==>
      Normalize(input, kind) == Err(WrongKind)
  {
    hide Resolve, Split, Join;
  }

  /** Segments are joined by single backslashes, and nothing is left of an empty relative path but a dot. */
  lemma TextMeans(a: Segment, b: Segment, rest: seq<Segment>)
    ensures Join([]) == [] && Join([a]) == a && Join([a, b] + rest) == a + ['\\' as int] + Join([b] + rest)
    ensures Text([], []) == ['.' as int] && Text([], [a] + rest) == Join([a] + rest)
  {
    assert ([a, b] + rest)[1..] == [b] + rest;
  }

  /** Why a segment is refused: its length, a character that is not allowed, or the limits of the path. */
  lemma SegmentRefusals(stack: seq<Segment>, seg: Segment, root: nat)
    requires AllGood(stack) && Plain(seg) && seg != ['.' as int] && seg != ['.' as int, '.' as int]
    ensures |seg| > 767 ==> Resolve1(stack, seg, root) == Err(ComponentTooLong)
    ensures |seg| <= 767 && !IsValid(seg) ==>
      Resolve1(stack, seg, root) == Err(if BadNul(seg) then Nul else BadCharacter)
    ensures |seg| <= 767 && IsValid(seg) && CharsOf(seg) > 255 ==> Resolve1(stack, seg, root) == Err(ComponentTooLong)
    ensures Resolve1(stack, seg, root).Err? && |seg| <= 767 && IsValid(seg) && CharsOf(seg) <= 255 ==>
      Resolve1(stack, seg, root) == Err(TooLong)
  {
    hide JoinChars, BadNul;
  }

  /** The limits: 255 characters and 767 bytes a segment, 160 segments and 260 characters in all. */
  lemma LimitsMean(stack: seq<Segment>, seg: Segment, root: nat)
    requires AllGood(stack) && Plain(seg) && seg != ['.' as int] && seg != ['.' as int, '.' as int] && IsValid(seg)
    ensures Resolve1(stack, seg, root).Ok? <==>
      && |seg| <= 767 && CharsOf(seg) <= 255 && |stack| < 160
      && AllGood(stack + [seg]) && root + JoinChars(stack + [seg]) <= 260
    ensures Resolve1(stack, seg, root).Ok? ==> Resolve1(stack, seg, root).value == stack + [seg]
  {
    hide JoinChars;
    if |seg| <= 767 && CharsOf(seg) <= 255 {
      assert Good(seg);
      assert AllGood(stack + [seg]);
    }
  }

  // ------------------------------------------------------------------ the in-place normaliser

  method SkipSeparators(input: seq<Byte>, from: nat) returns (index: nat)
    requires from <= |input|
    ensures from <= index <= |input| && (index < |input| ==> !Separator(input[index]))
    ensures Split(input[index..]) == Split(input[from..])
    ensures from < |input| && Separator(input[from]) ==> index > from
  {
    index := from;
    while index < |input| && Separator(input[index])
      invariant from <= index <= |input| && Split(input[index..]) == Split(input[from..])
    {
      assert input[index..][1..] == input[index + 1..];
      index := index + 1;
    }
  }

  method EndOfSegment(input: seq<Byte>, from: nat) returns (index: nat)
    requires from < |input| && !Separator(input[from])
    ensures from < index <= |input| && (index < |input| ==> Separator(input[index])) && Plain(input[from..index])
    ensures Split(input[from..]) == [input[from..index]] + Split(input[index..])
  {
    hide Split;
    index := from;
    while index < |input| && !Separator(input[index])
      invariant from <= index <= |input| && forall i :: from <= i < index ==> !Separator(input[i])
      decreases |input| - index
    {
      index := index + 1;
    }
    SplitAtRun(input, from, index);
  }

  lemma SplitAtRun(input: seq<Byte>, from: nat, index: nat)
    requires from < index <= |input| && (index < |input| ==> Separator(input[index]))
    requires forall i :: from <= i < index ==> !Separator(input[i])
    ensures Plain(input[from..index]) && Split(input[from..]) == [input[from..index]] + Split(input[index..])
  {
    hide RunLength;
    var s := input[from..];
    RunLengthIs(s, index - from);
    assert s[..index - from] == input[from..index] && s[index - from..] == input[index..];
    assert s != [] && !Separator(s[0]);
  }

  /** The validator's answer in terms of the reference definition. */
  method CheckSegment(seg: Segment) returns (error: Result<nat>)
    requires Plain(seg) && seg != DOT && seg != DOT_DOT
    ensures error.Ok? <==> Good(seg)
    ensures error.Ok? ==> error.value == CharsOf(seg)
    ensures error.Err? ==>
      forall stack: seq<Segment>, root: nat :: AllGood(stack) ==> Resolve1(stack, seg, root) == Err(error.error)
  {
    if |seg| > COMPONENT_BYTES {
      return Err(ComponentTooLong);
    }
    var verdict, chars := SegmentValid(seg);
    if !verdict.Valid? {
      ghost var i: nat, cps :| Stuck(seg, i, cps) && (verdict.EmbeddedNul? <==> seg[i] == 0);
      forall j: nat, other | Stuck(seg, j, other) ensures j == i {
        StuckIsUnique(seg, i, cps, j, other);
      }
      return Err(if verdict.EmbeddedNul? then Nul else BadCharacter);
    }
    if chars > COMPONENT_CHARS {
      return Err(ComponentTooLong);
    }
    return Ok(chars);
  }

  /** What the buffer and the two offset stacks hold for a stack of segments. */
  ghost predicate Layout(text: seq<Byte>, starts: seq<nat>, charStarts: seq<nat>, drive: seq<Byte>, stack: seq<Segment>)
    requires AllGood(stack)
  {
    && text == drive + Join(stack)
    && |starts| == |charStarts| == |stack|
    && (forall k :: 0 <= k < |stack| ==>
          && AllGood(stack[..k])
          && starts[k] == |drive| + |Join(stack[..k])|
          && charStarts[k] == |drive| + JoinChars(stack[..k]))
  }

  lemma LayoutPush(text: seq<Byte>, starts: seq<nat>, charStarts: seq<nat>, drive: seq<Byte>, stack: seq<Segment>,
                   seg: Segment)
    requires AllGood(stack) && Good(seg) && Layout(text, starts, charStarts, drive, stack)
    ensures AllGood(stack + [seg])
    ensures JoinChars(stack + [seg]) == JoinChars(stack) + CharsOf(seg) + (if stack != [] then 1 else 0)
    ensures Layout(text + (if stack != [] then [BACKSLASH] else []) + seg,
                   starts + [|text|], charStarts + [|drive| + JoinChars(stack)], drive, stack + [seg])
  {
    hide Good;
    var more := stack + [seg];
    assert more[..|stack|] == stack;
    JoinAppend(stack, seg);
    assert forall k :: 0 <= k < |stack| ==> more[..k] == stack[..k];
    assert drive + Join(more) == text + (if stack != [] then [BACKSLASH] else []) + seg;
  }

  lemma SeparatorNeeded(text: seq<Byte>, starts: seq<nat>, charStarts: seq<nat>, drive: seq<Byte>, stack: seq<Segment>)
    requires AllGood(stack) && Layout(text, starts, charStarts, drive, stack)
    ensures |text| > |drive| <==> stack != []
  {
  }

  lemma LayoutPop(text: seq<Byte>, starts: seq<nat>, charStarts: seq<nat>, drive: seq<Byte>, stack: seq<Segment>)
    requires AllGood(stack) && stack != [] && Layout(text, starts, charStarts, drive, stack)
    ensures var n := |stack| - 1;
      && AllGood(stack[..n]) && starts[n] <= |text|
      && Layout(text[..starts[n]], starts[..n], charStarts[..n], drive, stack[..n])
      && charStarts[n] == |drive| + JoinChars(stack[..n])
  {
    hide Good;
    var n := |stack| - 1;
    assert stack == stack[..n] + [stack[n]];
    JoinAppend(stack[..n], stack[n]);
    assert forall k :: 0 <= k < n ==> stack[..n][..k] == stack[..k];
    assert text[..starts[n]] == drive + Join(stack[..n]);
  }

  /** `memcpy` into the output buffer. */
  method CopyTo(out: array<Byte>, pos: nat, seg: seq<Byte>)
    requires pos + |seg| <= out.Length
    modifies out
    ensures out[..pos + |seg|] == old(out[..pos]) + seg
  {
    forall i | 0 <= i < |seg| {
      out[pos + i] := seg[i];
    }
  }

  /** Where the text ends after a pop, with the correction for a drive letter. */
  function AfterPop(saved: nat, root: nat): nat { if root == 3 && saved == 2 then 3 else saved }

  function CharsAfterPop(saved: nat, root: nat): nat { if root == 3 && saved < 3 then 3 else saved }

  /** The locals of `r4_path_normalize`, held together by `Layout`. */
  class Builder {
    const root: nat
    const out: array<Byte>
    const starts: array<nat>
    const charStarts: array<nat>
    var pos: nat
    var count: nat
    var chars: nat
    ghost const drive: seq<Byte>
    ghost var stack: seq<Segment>

    ghost predicate Valid()
      reads this, out, starts, charStarts
    {
      && out.Length == MAX_BYTES + 1 && starts.Length == charStarts.Length == MAX_DEPTH
      && starts != charStarts && out as object != starts as object && out as object != charStarts as object
      && root == |drive| && pos <= MAX_BYTES && count <= MAX_DEPTH && count == |stack|
      && AllGood(stack) && chars == |drive| + JoinChars(stack)
      && Layout(out[..pos], starts[..count], charStarts[..count], drive, stack)
    }

    constructor (out: array<Byte>, input: seq<Byte>)
      requires out.Length == MAX_BYTES + 1
      ensures this.out == out && drive == Drive(input) && root == |drive|
      ensures pos == |drive| && count == 0 && stack == [] && fresh(starts) && fresh(charStarts)
      ensures starts.Length == charStarts.Length == MAX_DEPTH && starts != charStarts && chars == |drive|
    {
      this.out := out;
      starts, charStarts := new nat[MAX_DEPTH], new nat[MAX_DEPTH];
      drive, stack := Drive(input), [];
      root := if HasDrive(input) then 3 else 0;
      pos := if HasDrive(input) then 3 else 0;
      chars := if HasDrive(input) then 3 else 0;
      count := 0;
    }

    /** `..`: back to where the last segment began, its separator included. The offsets saved there
        are never below the root, so that the two corrections have no effect. */
    method Pop()
      requires Valid() && count > 0
      modifies this
      ensures Valid() && stack == old(stack)[..|old(stack)| - 1] && root <= pos <= old(pos) && root <= chars
    {
      hide Join, JoinChars, Good;
      LayoutPop(out[..pos], starts[..count], charStarts[..count], drive, stack);
      count := count - 1;
      pos := AfterPop(starts[count], root);
      chars := CharsAfterPop(charStarts[count], root);
      stack := stack[..count];
      assert out[..pos] == old(out[..pos])[..pos];
      assert starts[..count] == old(starts[..count])[..count];
      assert charStarts[..count] == old(charStarts[..count])[..count];
    }

    /** Remembers where a segment begins. */
    method Mark(before: nat, beforeChars: nat)
      requires count < starts.Length == charStarts.Length && starts != charStarts
      modifies this`count, starts, charStarts
      ensures count == old(count) + 1
      ensures starts[..count] == old(starts[..count]) + [before]
      ensures charStarts[..count] == old(charStarts[..count]) + [beforeChars]
    {
      starts[count] := before;
      charStarts[count] := beforeChars;
      count := count + 1;
    }

    /** A separator goes between two segments, not after the root. */
    method Separate()
      requires pos < out.Length
      modifies this`pos, this`chars, out
      ensures pos == old(pos) + if old(pos) > root then 1 else 0
      ensures out[..pos] == old(out[..pos]) + if old(pos) > root then [BACKSLASH] else []
      ensures chars == old(chars) + if old(pos) > root then 1 else 0
    {
      if pos > root {
        out[pos] := BACKSLASH;
        pos := pos + 1;
        chars := chars + 1;
      }
    }

    /** A checked segment of `n` characters is appended if the limits allow it. */
    method Push(seg: Segment, n: nat) returns (ok: bool)
      requires Valid() && Good(seg) && n == CharsOf(seg)
      modifies this, out, starts, charStarts
      ensures ok <==>
        && |old(stack)| < MAX_DEPTH && old(pos) + (if old(stack) != [] then 1 else 0) + |seg| <= MAX_BYTES
        && AllGood(old(stack) + [seg]) && |drive| + JoinChars(old(stack) + [seg]) <= MAX_CHARS
      ensures ok ==> Valid() && stack == old(stack) + [seg]
      ensures ok ==> pos <= old(pos) + (if old(stack) != [] then 1 else 0) + |seg|
    {
      hide Join, JoinChars, Good, Layout;
      if count >= MAX_DEPTH {
        return false;
      }
      LayoutPush(out[..pos], starts[..count], charStarts[..count], drive, stack, seg);
      var before, beforeChars := pos, chars;
      SeparatorNeeded(out[..pos], starts[..count], charStarts[..count], drive, stack);
      Separate();
      Mark(before, beforeChars);
      if |seg| > MAX_BYTES - pos {
        return false;
      }
      chars := chars + n;
      if chars > MAX_CHARS {
        return false;
      }
      CopyTo(out, pos, seg);
      pos := pos + |seg|;
      stack := stack + [seg];
      ok := true;
    }

    /** One segment of the input. There is always room for it, since the output is never ahead of
        the input. */
    method Take(seg: Segment) returns (error: Result<nat>)
      requires Valid() && Plain(seg)
      requires pos + (if stack != [] then 1 else 0) + |seg| <= MAX_BYTES
      modifies this, out, starts, charStarts
      ensures error.Err? ==> Resolve1(old(stack), seg, root) == Err(error.error)
      ensures error.Ok? ==> Valid() && Resolve1(old(stack), seg, root) == Ok(stack)
      ensures error.Ok? ==> pos <= old(pos) + (if old(stack) != [] then 1 else 0) + |seg|
    {
      hide Resolve1, Join, JoinChars, Good, Layout;
      if seg == DOT {
        DotStays(stack, root);
        return Ok(0);
      }
      if seg == DOT_DOT {
        DotDotPops(stack, root);
        if count == 0 {
          return Err(RootTraversal);
        }
        Pop();
        return Ok(0);
      }
      error := CheckSegment(seg);
      if error.Err? {
        return;
      }
      GoodIsPushed(stack, seg, root);
      var pushed := Push(seg, error.value);
      if !pushed {
        error := Err(TooLong);
      }
    }
  }

  lemma LayoutStart(drive: seq<Byte>, starts: seq<nat>, charStarts: seq<nat>)
    requires starts == charStarts == []
    ensures AllGood([]) && Layout(drive, starts, charStarts, drive, []) && JoinChars([]) == 0
  {
  }

  lemma ResolveStep(stack: seq<Segment>, seg: Segment, rest: seq<Segment>, root: nat)
    requires AllGood(stack) && Plain(seg) && AllPlain(rest)
    ensures AllPlain([seg] + rest)
    ensures var r := Resolve1(stack, seg, root);
      Resolve(stack, [seg] + rest, root) == if r.Err? then Err(r.error) else Resolve(r.value, rest, root)
  {
  }

  lemma DotStays(stack: seq<Segment>, root: nat)
    requires AllGood(stack) && Plain(DOT)
    ensures Resolve1(stack, DOT, root) == Ok(stack)
  {
  }

  lemma DotDotPops(stack: seq<Segment>, root: nat)
    requires AllGood(stack) && Plain(DOT_DOT)
    ensures Resolve1(stack, DOT_DOT, root) == if stack == [] then Err(RootTraversal) else Ok(stack[..|stack| - 1])
  {
  }

  lemma GoodIsPushed(stack: seq<Segment>, seg: Segment, root: nat)
    requires AllGood(stack) && Good(seg)
    ensures AllGood(stack + [seg])
    ensures Resolve1(stack, seg, root) ==
      if |stack| < MAX_DEPTH && root + JoinChars(stack + [seg]) <= MAX_CHARS then Ok(stack + [seg]) else Err(TooLong)
  {
  }

  lemma TextOf(text: seq<Byte>, starts: seq<nat>, charStarts: seq<nat>, drive: seq<Byte>, stack: seq<Segment>)
    requires AllGood(stack) && Layout(text, starts, charStarts, drive, stack)
    ensures drive == [] && text == [] <==> drive == [] && stack == []
    ensures Text(drive, stack) == if drive == [] && text == [] then DOT else text
  {
  }

  /** The main loop: resolves the segments of the input from `from` on. */
  method ResolveInto(b: Builder, input: seq<Byte>, from: nat) returns (error: Result<nat>)
    requires b.Valid() && b.stack == [] && from <= |input| <= MAX_BYTES && b.pos <= from
    modifies b, b.out, b.starts, b.charStarts
    ensures AllPlain(Split(input[from..]))
    ensures var whole := Resolve([], Split(input[from..]), b.root);
      && (error.Err? <==> whole.Err?)
      && (error.Err? ==> whole == Err(error.error))
      && (error.Ok? ==> b.Valid() && whole == Ok(b.stack))
  {
    hide Resolve1, Resolve, Split, Join, JoinChars, Good, Layout, Plain, Builder.Valid;
    SplitIsPlain(input[from..]);
    BuilderFacts(b);
    ghost var whole := Resolve([], Split(input[from..]), b.root);
    var index := from;
    while index < |input|
      invariant b.Valid() && from <= index <= |input| && b.pos <= index
      invariant b.stack != [] && index < |input| ==> Separator(input[index])
      invariant AllGood(b.stack) && AllPlain(Split(input[index..]))
      invariant whole == Resolve(b.stack, Split(input[index..]), b.root)
      decreases |input| - index
    {
      index := SkipSeparators(input, index);
      if index >= |input| {
        break;
      }
      var start := index;
      index := EndOfSegment(input, start);
      SplitIsPlain(input[index..]);
      ResolveStep(b.stack, input[start..index], Split(input[index..]), b.root);
      error := b.Take(input[start..index]);
      if error.Err? {
        return;
      }
      BuilderFacts(b);
    }
    assert input[index..] == [];
    NothingLeft(b.stack, b.root);
    error := Ok(0);
  }

  lemma BuilderFacts(b: Builder)
    requires b.Valid()
    ensures AllGood(b.stack)
  {
  }

  lemma NothingLeft(stack: seq<Segment>, root: nat)
    requires AllGood(stack)
    ensures Split([]) == [] && Resolve(stack, [], root) == Ok(stack)
  {
  }

  /** `r4_path_normalize`: refuses or writes exactly what the reference definition says, followed
      by a terminating zero; all writes stay inside the buffer. */
  method NormalizeInto(input: seq<Byte>, kind: Kind, out: array<Byte>) returns (r: Result<nat>)
    requires out.Length == MAX_BYTES + 1
    modifies out
    ensures r.Err? <==> Normalize(input, kind).Err?
    ensures r.Err? ==> r == Err(Normalize(input, kind).error)
    ensures r.Ok? ==> r.value <= MAX_BYTES && out[..r.value] == Normalize(input, kind).value && out[r.value] == 0
  {
    hide Resolve, Split, Join, JoinChars, Good, Layout, Text;
    if input == [] {
      return Err(Empty);
    }
    if |input| > MAX_BYTES {
      return Err(TooLong);
    }
    var absolute := HasDrive(input);
    if (kind.Absolute? && !absolute) || (kind.Relative? && absolute) || (!absolute && Separator(input[0])) {
      return Err(WrongKind);
    }
    var b := new Builder(out, input);
    if absolute {
      out[0], out[1], out[2] := Upper(input[0]), 0x3A, BACKSLASH;
    }
    assert out[..b.pos] == b.drive;
    LayoutStart(b.drive, b.starts[..0], b.charStarts[..0]);
    var error := ResolveInto(b, input, b.pos);
    if error.Err? {
      return Err(error.error);
    }
    TextOf(out[..b.pos], b.starts[..b.count], b.charStarts[..b.count], b.drive, b.stack);
    if !absolute && b.pos == 0 {
      out[0] := 0x2E;
      b.pos := 1;
    }
    out[b.pos] := 0;
    return Ok(b.pos);
  }
}
