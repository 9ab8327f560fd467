/** The program's card storage, `cards` and `total_cards`, and the loader
    that fills it from a deck file line by line. */
module CardStore {
  import opened DeckFormat

  /** A deck file as the loader finds it: either it cannot be opened, or it
      holds some text. */
  datatype DeckFile = Unreadable | Readable(content: string)

  class Flashcards {
    /** The loaded cards, in the order they were appended. */
    var cards: seq<Card>
    /** How many cards are stored. */
    var totalCards: nat

    ghost predicate Valid()
      reads this
    {
      totalCards == |cards|
    }

    /** The storage before anything is loaded: no cards. */
    constructor ()
      ensures Valid() && cards == [] && totalCards == 0
    {
      cards := [];
      totalCards := 0;
    }

    /** Stores `card` at index `totalCards` and counts it; the cards
        stored before are left as they were. */
    method AddCard(card: Card)
      requires Valid()
      modifies this
      ensures Valid()
      ensures totalCards == old(totalCards) + 1
      ensures cards[old(totalCards)] == card
      ensures cards == old(cards) + [card]
    {
      cards := cards + [card];
      totalCards := totalCards + 1;
    }

    /** One pass of the loader's loop over the line `line`: a comment line
        or a line without a tab leaves the storage as it was; any other line
        has its card appended. */
    method LoadLine(line: string)
      requires Valid()
      modifies this
      ensures Valid()
      ensures cards == old(cards) + CardsOf(ParseLine(line))
      ensures !Accepted(line) ==> cards == old(cards) && totalCards == old(totalCards)
      ensures Accepted(line) ==> totalCards == old(totalCards) + 1 && cards[old(totalCards)] == ParseLine(line).value
    {
      if IsComment(line) {
        return;
      }
      var visible := CString(line);
      var tab := IndexOf(visible, '\t');
      if tab.None? {
        return;
      }
      var front := visible[..tab.value];
      var back := Before(visible[tab.value + 1..], '\n');
      AddCard(Card(front, back));
    }

    /** Reads `file` line by line and appends the card of every line that
        is not a comment and holds a tab, in file order, after the cards
        already stored. A file that cannot be opened leaves the storage
        untouched and is reported by `ok`. */
    method LoadCards(file: DeckFile) returns (ok: bool)
      requires Valid()
      modifies this
      ensures Valid()
      ensures ok <==> file.Readable?
      ensures file.Unreadable? ==> cards == old(cards) && totalCards == old(totalCards)
      ensures file.Readable? ==> cards == old(cards) + Parse(Lines(file.content))
      ensures file.Readable? ==> totalCards == old(totalCards) + CountAccepted(Lines(file.content))
    {
      if file.Unreadable? {
        return false;
      }
      var lines := Lines(file.content);
      var i := 0;
      while i < |lines|
        invariant 0 <= i <= |lines|
        invariant Valid()
        invariant cards == old(cards) + Parse(lines[..i])
      {
        ParseStep(lines, i);
        LoadLine(lines[i]);
        i := i + 1;
      }
      assert lines[..i] == lines;
      ParseLength(lines);
      return true;
    }
  }
}
