/** Spreadsheet cell values as the page receives them from the decoded JSON:
    strings, numbers or null (an absent cell reads as `undefined`, which the page
    treats exactly like null). */
module Cells {
  import opened JsText

  datatype Cell = Str(s: string) | Num(n: int) | Null

  /** JavaScript truthiness: "" , 0 and null are falsy. */
  predicate Truthy(c: Cell) {
    match c
    case Str(s) => s != ""
    case Num(n) => n != 0
    case Null => false
  }

  /** A falsy cell becomes the empty string; anything else is kept. */
  function OrEmpty(c: Cell): (r: Cell)
    ensures r != Null && (Truthy(r) <==> Truthy(c))
    ensures Truthy(c) ==> r == c
    ensures !Truthy(c) ==> r == Str("")
  {
    if Truthy(c) then c else Str("")
  }

  /** The text a cell turns into when converted to a string. */
  function ToText(c: Cell): string {
    match c
    case Str(s) => s
    case Num(n) => IntToString(n)
    case Null => "null"
  }

  /** The page's `isEmpty`: null, or a string that trims to "". Numbers,
      zero included, are never empty. */
  predicate IsEmpty(c: Cell) {
    c.Null? || (c.Str? && Trim(c.s) == "")
  }

  /** `isEmpty` holds exactly for null and whitespace-only strings. */
  lemma IsEmptyCharacterised(c: Cell)
    ensures IsEmpty(c) <==> c == Null || (c.Str? && Blank(c.s))
  {
  }

  /** Truthiness and emptiness disagree in two ways: a whitespace-only string is
      truthy yet empty, and the number 0 is falsy yet not empty. */
  lemma TruthyVersusEmpty(c: Cell)
    ensures (!Truthy(c) && !IsEmpty(c)) <==> c == Num(0)
    ensures (Truthy(c) && IsEmpty(c)) <==> (c.Str? && c.s != "" && Blank(c.s))
  {
  }
}
