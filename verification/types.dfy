/** Records shared by the history log and the seed form, and the
    abstract text codec that stands for JSON.stringify / JSON.parse. */
module Types {

  /** A possibly-absent value: `None` plays the part of `undefined`. */
  datatype Option<+T> = None | Some(value: T) {
    function GetOr(default: T): T {
      match this
      case Some(v) => v
      case None => default
    }
  }

  /** The product attributes the user types into the form. The last three
      fields are optional in the record type and so may be undefined. */
  datatype SeedInput = SeedInput(
    seedName: string,
    price: string,
    strongPoints: string,
    harvestTime: string,
    suitableSpace: string,
    purchaseLink: string,
    recommendedCombos: Option<string>,
    customImagePrompt: Option<string>,
    seoKeywords: Option<string>)

  /** What the generation service returned; the image is optional and is
      the one large payload in a record. */
  datatype GeneratedContent = GeneratedContent(
    postContent: string,
    imagePrompt: string,
    imageBase64: Option<string>)

  /** One entry of the history log. */
  datatype HistoryItem = HistoryItem(
    id: string,
    timestamp: int,
    input: SeedInput,
    result: GeneratedContent)

  /** An optional string defaulted with a logical "or" against the empty
      string: a defined value (the empty string included, which is falsy
      and so also yields the empty string) is kept, and an undefined one
      becomes the empty string. */
  function OrEmpty(v: Option<string>): (r: string)
    ensures v.Some? ==> r == v.value
    ensures v.None? ==> r == ""
  {
    match v
    case Some(s) => s
    case None => ""
  }

  /** A text serialisation standing for the JSON encoder and parser:
      `decode` returns `None` where parsing would throw. */
  datatype Codec<!T> = Codec(encode: T -> string, decode: string -> Option<T>)

  /** The codec round-trips, and an encoding is never the empty string
      (the JSON text of an array or an object is at least two characters). */
  ghost predicate Faithful<T(!new)>(c: Codec<T>)
  {
    forall x :: c.decode(c.encode(x)) == Some(x) && c.encode(x) != ""
  }

  /** Reading a storage slot the way the code does: an absent key and the
      empty string are both falsy and give nothing; otherwise the text is
      parsed, and a parse failure also gives nothing. */
  function ReadSlot<T>(slot: Option<string>, c: Codec<T>): (r: Option<T>)
    ensures slot.None? || slot == Some("") ==> r.None?
    ensures slot.Some? && slot.value != "" ==> r == c.decode(slot.value)
  {
    match slot
    case None => None
    case Some(text) => if text == "" then None else c.decode(text)
  }

  /** Whatever was written with a faithful codec reads back unchanged. */
  lemma ReadWritten<T(!new)>(c: Codec<T>, x: T)
    requires Faithful(c)
    ensures ReadSlot(Some(c.encode(x)), c) == Some(x)
  {
  }
}
