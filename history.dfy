/** The linear undo history: the display list and the redo stack, both used
    as stacks whose top is the last element. */
module History {

  datatype Stacks<T> = Stacks(display: seq<T>, redo: seq<T>)

  function Reversed<T>(s: seq<T>): (r: seq<T>)
    ensures |r| == |s|
    ensures forall i :: 0 <= i < |s| ==> r[i] == s[|s| - 1 - i]
  {
    if s == [] then [] else Reversed(s[1..]) + [s[0]]
  }

  /** Everything the user has committed and not lost: what is shown, followed
      by what redo would bring back, next redo first. Undo and redo only move
      the boundary between the two parts. */
  function Timeline<T>(st: Stacks<T>): seq<T>
  {
    st.display + Reversed(st.redo)
  }

  /** Undo: when something is shown, the last drawable moves to the top of the
      redo stack; otherwise nothing changes. */
  function UndoStep<T>(st: Stacks<T>): (r: Stacks<T>)
    ensures Timeline(r) == Timeline(st)
    ensures |st.display| > 0 ==> |r.display| == |st.display| - 1
    ensures |st.display| == 0 ==> r == st
    ensures |r.display| + |r.redo| == |st.display| + |st.redo|
  {
    if |st.display| > 0 then
      var n := |st.display|;
      var r := Stacks(st.display[..n - 1], st.redo + [st.display[n - 1]]);
      assert Reversed(r.redo) == [st.display[n - 1]] + Reversed(st.redo);
      assert Timeline(r) == st.display[..n - 1] + [st.display[n - 1]] + Reversed(st.redo);
      assert st.display[..n - 1] + [st.display[n - 1]] == st.display;
      r
    else st
  }

  /** Redo: when the redo stack is not empty, its top moves back to the end of
      the display list; otherwise nothing changes. */
  function RedoStep<T>(st: Stacks<T>): (r: Stacks<T>)
    ensures Timeline(r) == Timeline(st)
    ensures |st.redo| > 0 ==> |r.display| == |st.display| + 1
    ensures |st.redo| == 0 ==> r == st
    ensures |r.display| + |r.redo| == |st.display| + |st.redo|
  {
    if |st.redo| > 0 then
      var n := |st.redo|;
      var r := Stacks(st.display + [st.redo[n - 1]], st.redo[..n - 1]);
      assert Reversed(st.redo) == [st.redo[n - 1]] + Reversed(st.redo[..n - 1]);
      r
    else st
  }

  lemma {:induction false} ReversedInjective<T>(a: seq<T>, b: seq<T>)
    requires Reversed(a) == Reversed(b)
    ensures a == b
  {
    assert |a| == |b|;
    forall i | 0 <= i < |a|
      ensures a[i] == b[i]
    {
      var j := |a| - 1 - i;
      assert Reversed(a)[j] == a[i];
      assert Reversed(b)[j] == b[i];
    }
  }

  /** The timeline and the length of the display list pin the state down. */
  lemma {:induction false} TimelineDetermines<T>(a: Stacks<T>, b: Stacks<T>)
    requires Timeline(a) == Timeline(b)
    requires |a.display| == |b.display|
    ensures a == b
  {
    var n := |a.display|;
    assert a.display == Timeline(a)[..n];
    assert b.display == Timeline(b)[..n];
    assert Reversed(a.redo) == Timeline(a)[n..];
    assert Reversed(b.redo) == Timeline(b)[n..];
    ReversedInjective(a.redo, b.redo);
  }

  /** Undo followed by redo restores both stacks exactly, unless undo had
      nothing to do while redo did. */
  lemma UndoThenRedo<T>(st: Stacks<T>)
    ensures RedoStep(UndoStep(st)) == st <==> |st.display| > 0 || |st.redo| == 0
  {
    if |st.display| > 0 {
      TimelineDetermines(RedoStep(UndoStep(st)), st);
    } else if |st.redo| > 0 {
      assert |RedoStep(UndoStep(st)).display| == 1;
    }
  }

  /** Redo followed by undo restores both stacks exactly, unless redo had
      nothing to do while undo did. */
  lemma RedoThenUndo<T>(st: Stacks<T>)
    ensures UndoStep(RedoStep(st)) == st <==> |st.redo| > 0 || |st.display| == 0
  {
    if |st.redo| > 0 {
      TimelineDetermines(UndoStep(RedoStep(st)), st);
    } else if |st.display| > 0 {
      assert |UndoStep(RedoStep(st)).display| == |st.display| - 1;
    }
  }
}
