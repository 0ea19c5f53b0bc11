/** The idea board: the three updates its handlers hand to the store's
    setter, each a function from the previous list of cards to the next.
    The clock, the generated id and the random colour index are parameters,
    and the assistant's expansion is the text it returned. */
module IdeaBoard {
  import opened Wrappers
  import opened Types
  import opened Seqs
  import opened Strings

  function HasIdeaId(id: string): Idea -> bool {
    (i: Idea) => i.id == id
  }

  /** `addIdea()`: blank input is ignored; otherwise a card holding the input
      exactly as typed, coloured with the pastel the random index picks, goes
      in front. */
  function AddIdea(prev: seq<Idea>, input: string, id: string, now: int, colorIndex: nat): (r: seq<Idea>)
    requires colorIndex < |PastelColors|
    ensures IsBlank(input) ==> r == prev
    ensures !IsBlank(input) ==>
      && |r| == |prev| + 1 && r[1..] == prev
      && r[0].content == input && r[0].color in PastelColors
      && r[0].id == id && r[0].createdAt == now && r[0].tags.None?
  {
    if IsBlank(input) then prev
    else [Idea(id, input, PastelColors[colorIndex], now, None)] + prev
  }

  /** `deleteIdea(id)`: the cards with other ids, in their order. */
  function DeleteIdea(prev: seq<Idea>, id: string): (r: seq<Idea>)
    ensures Subsequence(r, prev)
    ensures forall i :: 0 <= i < |r| ==> r[i].id != id
    ensures forall x :: x in prev && x.id != id ==> x in r
    ensures |r| == |prev| - Count(prev, HasIdeaId(id))
  {
    CountComplement(prev, HasIdeaId(id));
    Filter(prev, Not(HasIdeaId(id)))
  }

  /** What `handleExpand` puts between a card's text and the expansion. */
  const ExpansionMarker: string := "\n\n\U{2728} "

  function Expanded(i: Idea, expansion: string): Idea {
    i.(content := i.content + ExpansionMarker + expansion)
  }

  function ExpandIfId(id: string, expansion: string): Idea -> Idea {
    (i: Idea) => if i.id == id then Expanded(i, expansion) else i
  }

  /** The update `handleExpand` applies once the assistant answers: an empty
      answer changes nothing; otherwise every card with that id gets the
      marker and the answer after its text, and no other card and no other
      field changes. */
  function ExpandIdea(prev: seq<Idea>, id: string, expansion: string): (r: seq<Idea>)
    ensures |r| == |prev|
    ensures expansion == "" ==> r == prev
    ensures forall i :: 0 <= i < |prev| && prev[i].id != id ==> r[i] == prev[i]
    ensures expansion != "" ==> forall i :: 0 <= i < |prev| && prev[i].id == id ==>
      && r[i].content == prev[i].content + ExpansionMarker + expansion
      && r[i].id == prev[i].id && r[i].color == prev[i].color
      && r[i].createdAt == prev[i].createdAt && r[i].tags == prev[i].tags
  {
    if expansion == "" then prev else Map(prev, ExpandIfId(id, expansion))
  }

  // ---------------------------------------------------------- properties

  /** Expanding keeps every card's id, so the board's ids stay as they were. */
  lemma ExpandKeepsIds(prev: seq<Idea>, id: string, expansion: string)
    ensures var r := ExpandIdea(prev, id, expansion);
      forall i :: 0 <= i < |prev| ==> r[i].id == prev[i].id
  {
  }

  /** An expanded card's old text is a proper prefix of its new text, and
      what follows it is the marker and the answer. */
  lemma ExpandedExtendsContent(prev: seq<Idea>, id: string, expansion: string, k: nat)
    requires k < |prev| && prev[k].id == id && expansion != ""
    ensures var old_text, new_text := prev[k].content, ExpandIdea(prev, id, expansion)[k].content;
      && |old_text| < |new_text|
      && new_text[..|old_text|] == old_text
      && new_text[|old_text|..] == ExpansionMarker + expansion
  {
    var r := ExpandIdea(prev, id, expansion);
    assert r[k].content == prev[k].content + (ExpansionMarker + expansion);
  }

  /** Deleting a freshly added card, when no other card shares its id,
      gives back the board as it was. */
  lemma DeleteUndoesAdd(prev: seq<Idea>, input: string, id: string, now: int, colorIndex: nat)
    requires colorIndex < |PastelColors|
    requires forall i :: 0 <= i < |prev| ==> prev[i].id != id
    ensures DeleteIdea(AddIdea(prev, input, id, now, colorIndex), id) == prev
  {
    var added := AddIdea(prev, input, id, now, colorIndex);
    FilterAll(prev, Not(HasIdeaId(id)));
    if !IsBlank(input) {
      assert added == [added[0]] + prev;
    }
  }

  /** Deleting a card after expanding it is the same as deleting it. */
  lemma DeleteAfterExpand(prev: seq<Idea>, id: string, expansion: string)
    ensures DeleteIdea(ExpandIdea(prev, id, expansion), id) == DeleteIdea(prev, id)
  {
    FilterPointwise(prev, ExpandIdea(prev, id, expansion), Not(HasIdeaId(id)));
  }

  /** Expanding one card and deleting another can happen in either order. */
  lemma {:induction false} ExpandCommutesWithDelete(prev: seq<Idea>, id: string, expansion: string, other: string)
    ensures DeleteIdea(ExpandIdea(prev, id, expansion), other)
         == ExpandIdea(DeleteIdea(prev, other), id, expansion)
  {
    if expansion != "" && prev != [] {
      var f, p := ExpandIfId(id, expansion), Not(HasIdeaId(other));
      var x, rest := prev[0], prev[1..];
      ExpandCommutesWithDelete(rest, id, expansion, other);
      assert ExpandIdea(prev, id, expansion) == [f(x)] + ExpandIdea(rest, id, expansion);
      assert f(x).id == x.id;
      if p(x) {
        assert DeleteIdea(prev, other) == [x] + DeleteIdea(rest, other);
      } else {
        assert DeleteIdea(prev, other) == DeleteIdea(rest, other);
      }
    }
  }
}
