// A cursor over a text: what an iterator over the characters of a widget tree is for its users.
module TextCursors {
  import opened Common

  class TextCursor {
    const text: seq<Byte>
    var pos: int   // -1 for START, |text| for END

    ghost predicate Valid()
      reads this
    {
      -1 <= pos <= |text|
    }

    constructor (text: seq<Byte>)
      ensures Valid() && this.text == text && pos == -1
    {
      this.text, pos := text, -1;
    }

    constructor Clone(other: TextCursor)
      ensures text == other.text && pos == other.pos
    {
      text, pos := other.text, other.pos;
    }

    method Next() returns (ok: bool)
      requires Valid()
      modifies this`pos
      ensures Valid() && pos == Min(old(pos) + 1, |text|) && ok == (pos < |text|)
    {
      if pos < |text| {
        pos := pos + 1;
      }
      ok := pos < |text|;
    }

    method Prev() returns (ok: bool)
      requires Valid()
      modifies this`pos
      ensures Valid() && pos == Max(old(pos) - 1, -1) && ok == (pos >= 0)
    {
      if pos > -1 {
        pos := pos - 1;
      }
      ok := pos >= 0;
    }

    // START and END are 257 and 258; as a char they are 1 and 2.
    function GetChar(): Byte
      reads this
      requires Valid()
    {
      if pos == -1 then 1 else if pos == |text| then 2 else text[pos]
    }

    method Step(backwards: bool) returns (ok: bool)
      requires Valid()
      modifies this`pos
      ensures Valid() && Ahead(backwards) == Min(old(Ahead(backwards)) + 1, |text|) && ok == (Ahead(backwards) < |text|)
    {
      if backwards {
        ok := Prev();
      } else {
        ok := Next();
      }
    }

    // The position, counted in the direction of the search.
    ghost function Ahead(backwards: bool): int
      reads this`pos
    {
      if backwards then |text| - 1 - pos else pos
    }
  }
}
