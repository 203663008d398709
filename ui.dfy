/** The flashcard application: one sentence of the corpus is shown in
    Japanese; the single button first reveals its English translation, then
    moves on to a randomly chosen sentence with the translation hidden again.
    The random number generator is outside the model: every draw is an
    arbitrary natural number `r` passed in by the caller. */
module Ui {
  import opened Sentances

  /** The application state that the button and the view depend on. */
  datatype AppState = AppState(sentances: seq<Sentance>, current: nat, revealed: bool)

  /** The view reads `sentances[current]`, so `current` must be an index. */
  predicate ValidState(st: AppState)
  {
    st.current < |st.sentances|
  }

  /** The state `new` builds from the loaded corpus and one random draw. */
  function Init(sentances: seq<Sentance>, r: nat): (st: AppState)
    requires |sentances| > 0
    ensures ValidState(st) && !st.revealed && st.sentances == sentances
    ensures st.current == r % |sentances|
  {
    AppState(sentances, r % |sentances|, false)
  }

  /** The `RevealOrNext` message, with `r` the random draw used when it moves on. */
  function Update(st: AppState, r: nat): (st': AppState)
    requires st.revealed ==> |st.sentances| > 0
    ensures st'.sentances == st.sentances
    ensures st'.revealed == !st.revealed
    ensures !st.revealed ==> st'.current == st.current
    ensures st.revealed ==> st'.current == r % |st.sentances| < |st.sentances|
    ensures ValidState(st) ==> ValidState(st')
  {
    if st.revealed then AppState(st.sentances, r % |st.sentances|, false)
    else st.(revealed := true)
  }

  /** The sentence on screen: always one of the corpus. */
  function Shown(st: AppState): (s: Sentance)
    requires ValidState(st)
    ensures s in st.sentances
  {
    st.sentances[st.current]
  }

  /** The caption of the button. */
  function ButtonLabel(st: AppState): (caption: string)
    ensures caption == "Next" <==> st.revealed
    ensures caption == "Reveal" <==> !st.revealed
  {
    if st.revealed then "Next" else "Reveal"
  }

  /** From a hidden sentence, "Reveal" keeps the sentence and "Next" then
      hides the translation again on the sentence picked by the second draw. */
  lemma RevealThenNext(st: AppState, r1: nat, r2: nat)
    requires ValidState(st) && !st.revealed
    ensures Update(st, r1) == st.(revealed := true)
    ensures Shown(Update(st, r1)) == Shown(st)
    ensures Update(Update(st, r1), r2) == AppState(st.sentances, r2 % |st.sentances|, false)
  {
  }

  /** The state after one `RevealOrNext` per draw in `rs`. */
  function Run(st: AppState, rs: seq<nat>): (st': AppState)
    requires ValidState(st)
    ensures ValidState(st') && st'.sentances == st.sentances
    ensures st'.revealed == (st.revealed != (|rs| % 2 == 1))
    decreases |rs|
  {
    if rs == [] then st else Run(Update(st, rs[0]), rs[1..])
  }

  /** Starting hidden, after an even, non-zero number of presses the shown
      sentence is the one picked by the last draw. */
  lemma {:induction false} RunEvenPicksLastDraw(st: AppState, rs: seq<nat>)
    requires ValidState(st) && !st.revealed
    requires |rs| > 0 && |rs| % 2 == 0
    ensures Run(st, rs).current == rs[|rs| - 1] % |st.sentances|
    ensures !Run(st, rs).revealed
    decreases |rs|
  {
    var st2 := Update(Update(st, rs[0]), rs[1]);
    assert Run(st, rs) == Run(Update(st, rs[0]), rs[1..]);
    assert rs[1..][1..] == rs[2..];
    assert Run(st, rs) == Run(st2, rs[2..]);
    if |rs| > 2 {
      RunEvenPicksLastDraw(st2, rs[2..]);
    }
  }

  /** Starting hidden, after an odd number of presses the sentence is the one
      the last even prefix chose, with its translation revealed. */
  lemma {:induction false} RunOddReveals(st: AppState, rs: seq<nat>)
    requires ValidState(st) && !st.revealed
    requires |rs| % 2 == 1
    ensures Run(st, rs) == Run(st, rs[..|rs| - 1]).(revealed := true)
    decreases |rs|
  {
    if |rs| == 1 {
      assert rs[1..] == [];
    } else {
      var st2 := Update(Update(st, rs[0]), rs[1]);
      var front := rs[..|rs| - 1];
      assert Run(st, rs) == Run(Update(st, rs[0]), rs[1..]);
      assert rs[1..][1..] == rs[2..];
      assert Run(st, rs) == Run(st2, rs[2..]);
      assert front[1..][1..] == front[2..];
      assert Run(st, front) == Run(Update(st, front[0]), front[1..]);
      assert Run(st, front) == Run(st2, front[2..]);
      RunOddReveals(st2, rs[2..]);
      assert rs[2..][..|rs[2..]| - 1] == front[2..];
    }
  }

  /** The running application: `JapaneseSentanceApp`. */
  class JapaneseSentanceApp {
    var sentances: seq<Sentance>
    var current: nat
    var revealed: bool

    /** The abstract value of the fields. */
    function State(): AppState
      reads this
    {
      AppState(sentances, current, revealed)
    }

    /** The object invariant: the view's reads are in bounds. */
    predicate Valid()
      reads this
    {
      ValidState(State())
    }

    /** `new`: load the corpus from the file's text and pick a sentence with
        the random draw `r`. Loading must succeed and give at least one
        sentence, otherwise `% count` fails. */
    constructor (text: string, r: nat)
      requires ParseTsv(text).Success? && |ParseTsv(text).value| > 0
      ensures Valid()
      ensures State() == Init(ParseTsv(text).value, r)
    {
      var loaded := ParseTsv(text).value;
      sentances := loaded;
      current := r % |loaded|;
      revealed := false;
    }

    /** `update` with `RevealOrNext`: reveal the translation, or hide it and
        move to the sentence picked by the random draw `r`. */
    method RevealOrNext(r: nat)
      requires Valid()
      modifies this`current, this`revealed
      ensures Valid()
      ensures sentances == old(sentances)
      ensures State() == Update(old(State()), r)
    {
      if revealed {
        revealed := !revealed;
        current := r % |sentances|;
      } else {
        revealed := !revealed;
      }
    }
  }

  /** What a caller of the class can rely on: a press from the hidden state
      reveals the same sentence, and a second press moves on hidden. */
  method TwoPresses(app: JapaneseSentanceApp, r1: nat, r2: nat)
    requires app.Valid() && !app.revealed
    modifies app
    ensures app.Valid() && !app.revealed
    ensures app.sentances == old(app.sentances)
    ensures app.current == r2 % |app.sentances|
  {
    var before := app.State();
    app.RevealOrNext(r1);
    assert app.revealed && app.current == before.current;
    app.RevealOrNext(r2);
  }
}
