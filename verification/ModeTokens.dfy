/** The text of the kernel's mode list, entry by entry. */
module ModeTokens {
  import opened Numbers
  import opened ModeSelect
  import opened ModeListing
  import opened FormatMeaning

  /** The shortest decimal spelling of a number. */
  predicate Decimally(b: string, v: nat) {
    Numeral(b, v, 10, false)
  }

  /**
   A mode is listed by its index, a star when it is the current one, its size, and its
   format unless that is 0 or 1; one that could not be asked for, by its index alone.
   */
  lemma TokenSays(i: nat, e: Entry) returns (index: string, width: string, height: string, format: string)
    ensures Decimally(index, i) && Decimally(width, e.width) && Decimally(height, e.height)
    ensures Decimally(format, e.format)
    ensures e.flags / 2 % 2 == 1 ==> Token(i, e) == index + ":query-failed "
    ensures e.flags / 2 % 2 == 0 ==>
              Token(i, e) == index + (if e.flags % 2 == 1 then "*:" else ":") + width + "x" + height
                             + (if e.format in {0, 1} then " " else "/fmt" + format + " ")
  {
    index := Spelt(i);
    width := Spelt(e.width);
    height := Spelt(e.height);
    format := Spelt(e.format);
    Grouped(index, IsCurrent(e), width, height, format, e.format > 1);
  }

  lemma Spelt(v: nat) returns (b: string)
    ensures b == Decimal(v) && Decimally(b, v)
  {
    b := Decimal(v);
    DigitsAreNumeral(v, 10);
  }

  lemma Grouped(index: string, star: bool, width: string, height: string, format: string, named: bool)
    ensures index + (if star then "*" else "") + ":" + width + "x" + height
            + (if named then "/fmt" + format else "") + " "
            == index + (if star then "*:" else ":") + width + "x" + height
               + (if named then "/fmt" + format + " " else " ")
  {
    var head := index + (if star then "*:" else ":");
    assert index + (if star then "*" else "") + ":" == head;
    Ended(head + width + "x" + height, if named then "/fmt" + format else "");
  }

  lemma Ended(head: string, format: string)
    ensures head + format + " " == head + (format + " ")
  {
  }
}
