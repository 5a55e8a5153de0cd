/** The disassembler's iterator (`disassembler.rs`): it walks a slice of
 * instruction words, reports each word with its address, and treats the
 * word after an `Ldi` as that instruction's immediate operand rather than
 * decoding it. */
module Disassembler {
  import opened Wrappers
  import CoreInstruction

  type u16 = CoreInstruction.u16

  datatype ItemContent =
    | Decoded(instruction: CoreInstruction.Instruction)
    | Immediate(value: u16)
    | InvalidInstruction

  datatype Item = Item(address: nat, content: ItemContent)

  /** What one word becomes, and whether the word after it is an
   * immediate. */
  function Step(word: u16, nextIsImmediate: bool): (r: (ItemContent, bool))
    ensures nextIsImmediate ==> r == (Immediate(word), false)
    ensures !nextIsImmediate && CoreInstruction.Decode(word).None? ==> r == (InvalidInstruction, false)
    ensures !nextIsImmediate && CoreInstruction.Decode(word).Some? ==>
      r == (Decoded(CoreInstruction.Decode(word).value), CoreInstruction.Decode(word).value.Ldi?)
  {
    if nextIsImmediate then (Immediate(word), false)
    else
      match CoreInstruction.Decode(word)
      case Some(instruction) => (Decoded(instruction), instruction.Ldi?)
      case None => (InvalidInstruction, false)
  }

  /** The items the iterator still yields from the given state. */
  function Listing(data: seq<u16>, offset: nat, nextIsImmediate: bool): seq<Item>
    decreases |data|
  {
    if data == [] then []
    else
      var (content, immediate) := Step(data[0], nextIsImmediate);
      [Item(offset, content)] + Listing(data[1..], offset + 1, immediate)
  }

  /** `Disassembler`. */
  class Disassembler {
    var data: seq<u16>
    var offset: nat
    var nextIsImmediate: bool

    /** `Disassembler::new`: offset 0, not expecting an immediate. */
    constructor (data: seq<u16>)
      ensures this.data == data && offset == 0 && !nextIsImmediate
    {
      this.data := data;
      offset := 0;
      nextIsImmediate := false;
    }

    /** What is left to iterate. */
    function Remaining(): seq<Item>
      reads this
    {
      Listing(data, offset, nextIsImmediate)
    }

    /** `Iterator::next`: `None` exactly when no word is left; otherwise
     * one word is consumed and reported at the current offset. */
    method Next() returns (r: Option<Item>)
      modifies this
      ensures r.None? <==> old(data) == []
      ensures r.None? ==> data == old(data) && offset == old(offset) && nextIsImmediate == old(nextIsImmediate)
      ensures r.Some? ==> data == old(data)[1..] && offset == old(offset) + 1 && r.value.address == old(offset)
      ensures old(Remaining()) == (if r.Some? then [r.value] else []) + Remaining()
    {
      if data == [] {
        return None;
      }
      var first, rest := data[0], data[1..];
      var address := offset;
      data := rest;
      offset := offset + 1;
      var content;
      if nextIsImmediate {
        nextIsImmediate := false;
        content := Immediate(first);
      } else {
        var decoded := CoreInstruction.Decode(first);
        if decoded.Some? {
          nextIsImmediate := decoded.value.Ldi?;
          content := Decoded(decoded.value);
        } else {
          nextIsImmediate := false;
          content := InvalidInstruction;
        }
      }
      r := Some(Item(address, content));
    }
  }

  /** Draining a fresh iterator yields the listing of the whole slice. */
  method DisassembleAll(words: seq<u16>) returns (items: seq<Item>)
    ensures items == Listing(words, 0, false)
  {
    var d := new Disassembler(words);
    items := [];
    while true
      invariant items + d.Remaining() == Listing(words, 0, false)
      decreases |d.data|
    {
      var item := d.Next();
      if item.None? {
        return;
      }
      items := items + [item.value];
    }
  }

  /** One item per word, at consecutive addresses. */
  lemma {:induction false} ListingShape(data: seq<u16>, offset: nat, nextIsImmediate: bool)
    ensures |Listing(data, offset, nextIsImmediate)| == |data|
    ensures forall i :: 0 <= i < |data| ==> Listing(data, offset, nextIsImmediate)[i].address == offset + i
    decreases |data|
  {
    if data != [] {
      ListingShape(data[1..], offset + 1, Step(data[0], nextIsImmediate).1);
    }
  }

  /** The item before position `i` is a decoded `Ldi`. */
  predicate FollowsLdi(items: seq<Item>, i: nat)
  {
    0 < i <= |items| && items[i - 1].content.Decoded? && items[i - 1].content.instruction.Ldi?
  }

  /** Every word is reported for what it is: outside an immediate it is
   * decoded (or reported invalid when it does not decode), and a word
   * reported as an immediate follows an `Ldi`, carries the word itself,
   * and is never decoded. */
  lemma {:induction false} ListingContents(data: seq<u16>, offset: nat, i: nat)
    requires i < |data|
    ensures |Listing(data, offset, false)| == |data|
    ensures var item := Listing(data, offset, false)[i];
      (item.content.Decoded? ==> CoreInstruction.Decode(data[i]) == Some(item.content.instruction)) &&
      (item.content.InvalidInstruction? ==> CoreInstruction.Decode(data[i]).None?) &&
      (item.content.Immediate? ==> item.content.value == data[i] && FollowsLdi(Listing(data, offset, false), i))
    decreases i
  {
    ListingShape(data, offset, false);
    var d := Step(data[0], false);
    if i > 0 {
      if d.1 {
        // `data[0]` is an `Ldi`: the next word is its immediate, and the
        // listing resumes normally after it.
        ListingShape(data[1..], offset + 1, true);
        if i > 1 {
          assert data[2..] == data[1..][1..];
          ListingContents(data[2..], offset + 2, i - 2);
          assert Listing(data, offset, false)[i] == Listing(data[2..], offset + 2, false)[i - 2];
          if i > 2 {
            assert Listing(data, offset, false)[i - 1] == Listing(data[2..], offset + 2, false)[i - 3];
          }
        }
      } else {
        ListingContents(data[1..], offset + 1, i - 1);
        if i > 1 {
          assert Listing(data, offset, false)[i - 1] == Listing(data[1..], offset + 1, false)[i - 2];
        }
      }
    }
  }

  /** The word after a decoded `Ldi` is reported as its immediate. */
  lemma {:induction false} ListingLdiImmediate(data: seq<u16>, offset: nat, i: nat)
    requires i + 1 < |data|
    ensures |Listing(data, offset, false)| == |data|
    ensures FollowsLdi(Listing(data, offset, false), i + 1) ==> Listing(data, offset, false)[i + 1].content == Immediate(data[i + 1])
    decreases i
  {
    ListingShape(data, offset, false);
    var d := Step(data[0], false);
    if d.1 {
      ListingShape(data[1..], offset + 1, true);
      if i > 0 {
        if i == 1 {
          assert Listing(data, offset, false)[1].content.Immediate?;
        } else {
          assert data[2..] == data[1..][1..];
          ListingLdiImmediate(data[2..], offset + 2, i - 2);
          assert Listing(data, offset, false)[i + 1] == Listing(data[2..], offset + 2, false)[i - 1];
          assert Listing(data, offset, false)[i] == Listing(data[2..], offset + 2, false)[i - 2];
        }
      }
    } else if i > 0 {
      ListingLdiImmediate(data[1..], offset + 1, i - 1);
      assert Listing(data, offset, false)[i + 1] == Listing(data[1..], offset + 1, false)[i];
      assert Listing(data, offset, false)[i] == Listing(data[1..], offset + 1, false)[i - 1];
    }
  }
}
