/**
 * The state stream an adapter writes its fields to and reads them back
 * from.  Only the identity and order of the values matter here, so the
 * stream is a sequence of tagged integers and booleans; its byte encoding
 * is not modelled.
 */
module Serialization {
  import opened Outcomes

  datatype Token = IntToken(i: int) | BoolToken(b: bool)

  /** A stream being written: `putInt` and `putBool` append to `data`. */
  class Serializer {
    var data: seq<Token>

    constructor ()
      ensures data == []
    {
      data := [];
    }

    method PutInt(x: int)
      modifies this
      ensures data == old(data) + [IntToken(x)]
    {
      data := data + [IntToken(x)];
    }

    method PutBool(x: bool)
      modifies this
      ensures data == old(data) + [BoolToken(x)]
    {
      data := data + [BoolToken(x)];
    }
  }

  /**
   * A stream being read: `rest` is what has not been consumed yet.  A read
   * whose next value is missing or of the other kind fails and consumes
   * nothing.
   */
  class Deserializer {
    var rest: seq<Token>

    constructor (s: seq<Token>)
      ensures rest == s
    {
      rest := s;
    }

    method GetInt() returns (r: Option<int>)
      modifies this
      ensures r.Some? <==> old(rest) != [] && old(rest)[0].IntToken?
      ensures r.Some? ==> r.value == old(rest)[0].i && rest == old(rest)[1..]
      ensures r.None? ==> rest == old(rest)
    {
      if rest != [] && rest[0].IntToken? {
        r := Some(rest[0].i);
        rest := rest[1..];
      } else {
        r := None;
      }
    }

    method GetBool() returns (r: Option<bool>)
      modifies this
      ensures r.Some? <==> old(rest) != [] && old(rest)[0].BoolToken?
      ensures r.Some? ==> r.value == old(rest)[0].b && rest == old(rest)[1..]
      ensures r.None? ==> rest == old(rest)
    {
      if rest != [] && rest[0].BoolToken? {
        r := Some(rest[0].b);
        rest := rest[1..];
      } else {
        r := None;
      }
    }
  }
}
