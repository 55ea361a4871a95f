/** The table-driven automaton engine of src/parser/parser.c and the compiler
    from strings to case-insensitive matchers of src/parser/parser_utils.c. */
module StringMatcher {
  import opened Bytes

  /** The event types that the three actions write. */
  datatype Verdict = MAYEQ | EQ | NEQ

  datatype Event = Event(verdict: Verdict, data: byte)

  /** `when` is a byte value, a class bit above 0xFF, or ANY. */
  datatype Transition = Transition(condition: int, dest: nat, act: Verdict)

  const ANY: int := 512

  /** State q owns `counts[q]` transitions from index `starts[q]` on. */
  datatype Definition =
    Definition(startState: nat, starts: seq<nat>, counts: seq<nat>, transitions: seq<Transition>)
  {
    predicate Valid() {
      && |starts| == |counts|
      && forall q :: 0 <= q < |starts| ==> starts[q] + counts[q] <= |transitions|
    }
  }

  /** The class bits of each byte; parser_no_classes has 255 entries without bits. */
  type Classes = seq<set<int>>

  predicate Matches(t: Transition, classes: Classes, c: byte)
    requires c < |classes|
  {
    if t.condition <= 0xFF then c == t.condition
    else t.condition == ANY || t.condition in classes[c]
  }

  /** The first matching transition of a row, or the length of the row. */
  function FirstMatch(row: seq<Transition>, classes: Classes, c: byte): (r: nat)
    requires c < |classes|
    ensures r <= |row| && (r < |row| ==> Matches(row[r], classes, c))
    ensures forall j :: 0 <= j < r ==> !Matches(row[j], classes, c)
  {
    if row == [] || Matches(row[0], classes, c) then 0 else 1 + FirstMatch(row[1..], classes, c)
  }

  function Row(def: Definition, q: nat): seq<Transition>
    requires def.Valid() && q < |def.starts|
  {
    def.transitions[def.starts[q]..def.starts[q] + def.counts[q]]
  }

  /** State and event after one byte; without a match both stay. */
  function Step(def: Definition, classes: Classes, q: nat, e: Event, c: byte): (nat, Event)
    requires def.Valid() && q < |def.starts| && c < |classes|
  {
    var row := Row(def, q);
    var r := FirstMatch(row, classes, c);
    if r < |row| then (row[r].dest, Event(row[r].act, c)) else (q, e)
  }

  /** The byte is the one the transition names, any byte will do, or the byte is in
      the class that the transition names. */
  predicate Fires(t: Transition, classes: Classes, c: byte)
    requires c < |classes|
  {
    t.condition == c || t.condition == 512 || (t.condition > 255 && t.condition in classes[c])
  }

  /** For every table: the first transition of the row that fires decides state and
      event; if none does, both stay. */
  lemma FirstFiringDecides(def: Definition, classes: Classes, q: nat, e: Event, c: byte, k: nat)
    requires def.Valid() && q < |def.starts| && c < |classes| && k <= |Row(def, q)|
    requires forall j :: 0 <= j < k ==> !Fires(Row(def, q)[j], classes, c)
    requires k < |Row(def, q)| ==> Fires(Row(def, q)[k], classes, c)
    ensures Step(def, classes, q, e, c) ==
            if k < |Row(def, q)| then (Row(def, q)[k].dest, Event(Row(def, q)[k].act, c)) else (q, e)
  {
    var row := Row(def, q);
    assert forall j :: 0 <= j < |row| ==> (Matches(row[j], classes, c) <==> Fires(row[j], classes, c));
  }

  class Parser {
    const classes: Classes
    const def: Definition
    var state: nat
    var e1: Event

    /** parser_init. */
    constructor (classes: Classes, def: Definition)
      ensures this.classes == classes && this.def == def && state == def.startState
    {
      this.classes, this.def := classes, def;
      state, e1 := def.startState, Event(MAYEQ, 0);
    }

    method Reset()
      modifies this`state
      ensures state == def.startState
    {
      state := def.startState;
    }

    /** parser_feed. */
    method Feed(c: byte) returns (e: Event)
      requires def.Valid() && state < |def.starts| && c < |classes|
      modifies this
      ensures (state, e1) == Step(def, classes, old(state), old(e1), c) && e == e1
    {
      var n := def.counts[state];
      var first := def.starts[state];
      var i := 0;
      while i < n
        invariant 0 <= i <= n && state == old(state) && e1 == old(e1)
        invariant i <= FirstMatch(Row(def, state), classes, c)
      {
        var t := def.transitions[first + i];
        assert t == Row(def, state)[i];
        if Matches(t, classes, c) {
          e1 := Event(t.act, c);
          state := t.dest;
          break;
        }
        i := i + 1;
      }
      e := e1;
    }
  }

  // ---------------------------------------------------------------------------
  // Compilation of a string

  /** tolower and toupper in the C locale. */
  function Lower(c: byte): byte {
    if 'A' as int <= c <= 'Z' as int then c + 32 else c
  }

  function Upper(c: byte): byte {
    if 'a' as int <= c <= 'z' as int then c - 32 else c
  }

  /** Two bytes fold to the same exactly when they are equal or the two cases of
      one of the 26 letters. */
  lemma FoldsExactly(a: byte, b: byte)
    ensures Lower(a) == Lower(b) <==> a == b || (65 <= a <= 90 && b == a + 32) || (65 <= b <= 90 && a == b + 32)
    ensures Upper(a) == Upper(b) <==> Lower(a) == Lower(b)
    ensures Lower(Upper(a)) == Lower(a) && Upper(Lower(a)) == Upper(a)
    ensures Lower(a) != a ==> Upper(a) == a
  {
  }

  /** A NUL-free ASCII string. */
  predicate IsAscii(s: seq<byte>) {
    forall i :: 0 <= i < |s| ==> 0 < s[i] < 128
  }

  /** The three transitions of state i, for the i-th character. */
  predicate CharState(ts: seq<Transition>, s: seq<byte>, i: nat)
    requires i < |s| && 3 * i + 2 < |ts|
  {
    var dest, act := i + 1, if i + 1 == |s| then EQ else MAYEQ;
    && ts[3 * i] == Transition(Lower(s[i]), dest, act)
    && ts[3 * i + 1] == Transition(Upper(s[i]), dest, act)
    && ts[3 * i + 2] == Transition(ANY, |s| + 1, NEQ)
  }

  /** The table that the comment in parser_utils.c draws for "foo", for any string. */
  predicate IsMatcher(def: Definition, s: seq<byte>) {
    && def.startState == 0 && |def.starts| == |def.counts| == |s| + 2 && |def.transitions| == 3 * (|s| + 2)
    && (forall i :: 0 <= i < |s| + 2 ==> def.starts[i] == 3 * i)
    && (forall i :: 0 <= i < |s| ==> def.counts[i] == 3 && CharState(def.transitions, s, i))
    && def.counts[|s|] == def.counts[|s| + 1] == 1
    && def.transitions[3 * |s|] == def.transitions[3 * (|s| + 1)] == Transition(ANY, |s| + 1, NEQ)
  }

  /** Fill in the three transitions of state i. */
  method FillState(transitions: array<Transition>, s: seq<byte>, i: nat)
    requires i < |s| && transitions.Length == 3 * (|s| + 2)
    modifies transitions
    ensures CharState(transitions[..], s, i)
    ensures forall k :: 0 <= k < transitions.Length && k != 3 * i && k != 3 * i + 1 && k != 3 * i + 2 ==>
              transitions[k] == old(transitions[k])
  {
    var dest, act := i + 1, if i + 1 == |s| then EQ else MAYEQ;
    transitions[3 * i] := Transition(Lower(s[i]), dest, act);
    transitions[3 * i + 1] := Transition(Upper(s[i]), dest, act);
    transitions[3 * i + 2] := Transition(ANY, |s| + 1, NEQ);
  }

  /** parser_utils_strcmpi; without memory the definition has no states. */
  method Strcmpi(s: seq<byte>, alloc: bool) returns (def: Definition)
    ensures alloc ==> IsMatcher(def, s)
    ensures !alloc ==> |def.starts| == |def.counts| == 0
  {
    var n := |s|;
    if !alloc {
      return Definition(0, [], [], []);
    }
    var zero := Transition(0, 0, MAYEQ);
    var states := new nat[n + 2](_ => 0);
    var nstates := new nat[n + 2](_ => 0);
    var transitions := new Transition[3 * (n + 2)](_ => zero);
    var i := 0;
    while i < n
      invariant 0 <= i <= n
      invariant forall j :: 0 <= j < i ==> states[j] == 3 * j && nstates[j] == 3
      invariant forall j :: 0 <= j < i ==> CharState(transitions[..], s, j)
    {
      ghost var before := transitions[..];
      FillState(transitions, s, i);
      forall j | 0 <= j < i ensures CharState(transitions[..], s, j) {
        assert CharState(before, s, j);
      }
      states[i], nstates[i] := 3 * i, 3;
      i := i + 1;
    }
    ghost var before := transitions[..];
    transitions[3 * n] := Transition(ANY, n + 1, NEQ);
    states[n], nstates[n] := 3 * n, 1;
    transitions[3 * (n + 1)] := Transition(ANY, n + 1, NEQ);
    states[n + 1], nstates[n + 1] := 3 * (n + 1), 1;
    forall j | 0 <= j < n ensures CharState(transitions[..], s, j) {
      assert CharState(before, s, j);
    }
    def := Definition(0, states[..], nstates[..], transitions[..]);
  }

  // ---------------------------------------------------------------------------
  // Correctness of the compiled automaton

  predicate SameIgnoringCase(a: seq<byte>, b: seq<byte>) {
    |a| == |b| && forall i :: 0 <= i < |a| ==> Lower(a[i]) == Lower(b[i])
  }

  /** What a caller wants to know about the bytes so far. */
  function Compare(s: seq<byte>, input: seq<byte>): Verdict {
    if SameIgnoringCase(input, s) then EQ
    else if |input| < |s| && SameIgnoringCase(input, s[..|input|]) then MAYEQ
    else NEQ
  }

  predicate Readable(input: seq<byte>, classes: Classes) {
    forall i :: 0 <= i < |input| ==> input[i] < |classes|
  }

  lemma MatcherRow(def: Definition, s: seq<byte>, q: nat)
    requires IsMatcher(def, s) && q < |s| + 2
    ensures def.Valid()
    ensures q >= |s| ==> Row(def, q) == [Transition(ANY, |s| + 1, NEQ)]
    ensures q < |s| ==>
              var act := if q + 1 == |s| then EQ else MAYEQ;
              Row(def, q) == [Transition(Lower(s[q]), q + 1, act), Transition(Upper(s[q]), q + 1, act),
                              Transition(ANY, |s| + 1, NEQ)]
  {
    if q < |s| {
      assert CharState(def.transitions, s, q);
    }
  }

  /** Some transition of every state fires on every byte, its destination is a
      state, and a character state moves on exactly for its character. */
  lemma MatcherStep(def: Definition, s: seq<byte>, classes: Classes, q: nat, e: Event, c: byte)
    requires IsMatcher(def, s) && IsAscii(s) && q < |s| + 2 && c < |classes|
    ensures def.Valid() && FirstMatch(Row(def, q), classes, c) < |Row(def, q)|
    ensures Step(def, classes, q, e, c) ==
            if q < |s| && Lower(c) == Lower(s[q]) then (q + 1, Event(if q + 1 == |s| then EQ else MAYEQ, c))
            else (|s| + 1, Event(NEQ, c))
    ensures Step(def, classes, q, e, c).0 < |def.starts|
  {
    MatcherRow(def, s, q);
    var row := Row(def, q);
    var r := FirstMatch(row, classes, c);
    assert Matches(row[|row| - 1], classes, c);
    if q < |s| {
      CaseMatch(c, s[q]);
      assert Matches(row[0], classes, c) <==> c == Lower(s[q]);
      assert Matches(row[1], classes, c) <==> c == Upper(s[q]);
    }
  }

  /** A byte is a letter in one of its two cases exactly when both fold alike. */
  lemma CaseMatch(c: byte, letter: byte)
    requires letter < 128
    ensures (c == Lower(letter) || c == Upper(letter)) <==> Lower(c) == Lower(letter)
  {
  }

  /** State and last event after all of the input. */
  function Run(def: Definition, s: seq<byte>, classes: Classes, e: Event, input: seq<byte>): (r: (nat, Event))
    requires IsMatcher(def, s) && IsAscii(s) && Readable(input, classes)
    ensures r.0 < |s| + 2
    decreases |input|
  {
    if input == [] then (def.startState, e)
    else
      var n := |input| - 1;
      var (q, last) := Run(def, s, classes, e, input[..n]);
      MatcherStep(def, s, classes, q, last, input[n]);
      Step(def, classes, q, last, input[n])
  }

  lemma SameSnoc(input: seq<byte>, s: seq<byte>)
    requires 0 < |input| <= |s|
    ensures var n := |input| - 1;
            SameIgnoringCase(input, s[..n + 1]) <==>
            SameIgnoringCase(input[..n], s[..n]) && Lower(input[n]) == Lower(s[n])
  {
  }

  /** The state that stands for an input: how far it has followed the string, or
      the sink of failed comparisons. */
  function StateFor(s: seq<byte>, input: seq<byte>): nat {
    if |input| <= |s| && SameIgnoringCase(input, s[..|input|]) then |input| else |s| + 1
  }

  /** The table of parser_no_classes. */
  const NO_CLASSES: Classes := seq(0xFF, _ => {})

  /** parser_feed reads the entry of each byte, before it looks at a transition:
      with the empty table all reads are inside it exactly for inputs without 255. */
  lemma EmptyClassesExactly(input: seq<byte>)
    ensures Readable(input, NO_CLASSES) <==> 255 !in input
  {
    assert |NO_CLASSES| == 255;
    if 255 in input {
      var i :| 0 <= i < |input| && input[i] == 255;
      assert input[i] >= |NO_CLASSES|;
    }
  }

  /** For every ASCII string and every non-empty input, the last event says
      exactly how the input compares with the string, ignoring case. */
  lemma {:induction false} MatcherDecides(def: Definition, s: seq<byte>, classes: Classes, e: Event, input: seq<byte>)
    requires IsMatcher(def, s) && IsAscii(s) && Readable(input, classes)
    ensures var (q, last) := Run(def, s, classes, e, input);
            q == StateFor(s, input) && (input != [] ==> last == Event(Compare(s, input), input[|input| - 1]))
    decreases |input|
  {
    if input != [] {
      var n := |input| - 1;
      MatcherDecides(def, s, classes, e, input[..n]);
      var (q, last) := Run(def, s, classes, e, input[..n]);
      MatcherStep(def, s, classes, q, last, input[n]);
      VerdictFor(s, input);
    }
  }

  lemma VerdictFor(s: seq<byte>, input: seq<byte>)
    requires input != []
    ensures var n := |input| - 1;
            var q := StateFor(s, input[..n]);
            if q < |s| && Lower(input[n]) == Lower(s[q])
            then StateFor(s, input) == q + 1 && Compare(s, input) == (if q + 1 == |s| then EQ else MAYEQ)
            else StateFor(s, input) == |s| + 1 && Compare(s, input) == NEQ
  {
    if |input| <= |s| {
      SameSnoc(input, s);
    }
    if |input| == |s| {
      assert s[..|input|] == s;
    }
  }
}
