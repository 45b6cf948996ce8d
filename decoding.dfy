/**
 * Metadata normalisation (steem/utils.py, `ensure_decoded`): a post's
 * `json_metadata` may arrive already decoded, JSON-encoded once, or
 * JSON-encoded twice. `json.loads` is the parameter `parse`; `None` from it
 * stands for the exception `json.loads` raises on text it cannot read.
 */
module Decoding {
  import opened Wrappers
  import opened PyValue

  /** `r` is what `text` decodes to in one step: a dict. */
  predicate DecodesOnce(text: string, parse: string -> Option<Value>, r: Value) {
    parse(text) == Some(r) && r.Dict?
  }

  /** `r` is what the non-empty string that `text` decodes to decodes to in turn. */
  predicate DecodesTwice(text: string, parse: string -> Option<Value>, r: Value) {
    parse(text).Some? && parse(text).value.Str? && parse(text).value.s != ""
    && parse(parse(text).value.s) == Some(r)
  }

  /**
   * `ensure_decoded(thing)` (steem/utils.py:72-102). Python's `None` is
   * `Null`; the function never raises, every failure gives `Null`.
   */
  function EnsureDecoded(thing: Value, parse: string -> Option<Value>): (r: Value)
    // logically false input gives None
    ensures !Truthy(thing) ==> r == Null
    // a non-empty list or dict is returned unchanged
    ensures Truthy(thing) && (thing.List? || thing.Dict?) ==> r == thing
    // json.loads rejects anything but text (TypeError, caught)
    ensures !thing.Str? && !thing.List? && !thing.Dict? ==> r == Null
    // from text, only a dict from the first parse or the result of the second parse comes out
    ensures thing.Str? && r != Null ==> DecodesOnce(thing.s, parse, r) || DecodesTwice(thing.s, parse, r)
  {
    if !Truthy(thing) then Null
    else if thing.List? || thing.Dict? then thing
    else if !thing.Str? then Null
    else
      match parse(thing.s)
      case None => Null
      case Some(single) =>
        if single.Dict? then single
        else if single.Str? then
          if single.s == "" then Null
          else
            match parse(single.s)
            case None => Null
            case Some(double) => double
        else Null
  }

  /** Text holding a JSON object decodes to that object, even an empty one. */
  lemma SingleEncodedDict(text: string, parse: string -> Option<Value>, entries: seq<(string, Value)>)
    requires text != "" && parse(text) == Some(Dict(entries))
    ensures EnsureDecoded(Str(text), parse) == Dict(entries)
  {
  }

  /** Text holding a JSON string that holds JSON decodes to the inner value, whatever its type. */
  lemma DoubleEncoded(text: string, inner: string, parse: string -> Option<Value>, v: Value)
    requires text != "" && inner != ""
    requires parse(text) == Some(Str(inner)) && parse(inner) == Some(v)
    ensures EnsureDecoded(Str(text), parse) == v
  {
  }

  /** Text holding the JSON string `""` gives None. */
  lemma EncodedEmptyString(text: string, parse: string -> Option<Value>)
    requires text != "" && parse(text) == Some(Str(""))
    ensures EnsureDecoded(Str(text), parse) == Null
  {
  }

  /** A first parse giving a number, a bool, a list or null falls through to None. */
  lemma OtherSingleDecodedValues(text: string, parse: string -> Option<Value>, v: Value)
    requires text != "" && parse(text) == Some(v)
    requires v.Null? || v.Bool? || v.Number? || v.List?
    ensures EnsureDecoded(Str(text), parse) == Null
  {
  }

  /** A parse failure at either stage gives None. */
  lemma ParseFailure(text: string, parse: string -> Option<Value>)
    requires text != ""
    requires parse(text) == None
      || (parse(text).Some? && parse(text).value.Str? && parse(text).value.s != ""
          && parse(parse(text).value.s) == None)
    ensures EnsureDecoded(Str(text), parse) == Null
  {
  }

  /**
   * Decoding what is already decoded changes nothing: when the result is None
   * or a non-empty list or dict, decoding it again returns it.
   */
  lemma IdempotentOnDecoded(thing: Value, parse: string -> Option<Value>)
    requires var r := EnsureDecoded(thing, parse); r == Null || (Truthy(r) && (r.List? || r.Dict?))
    ensures EnsureDecoded(EnsureDecoded(thing, parse), parse) == EnsureDecoded(thing, parse)
  {
  }

  /**
   * Not idempotent everywhere: the text `{}` decodes to an empty dict, and an
   * empty dict, being falsy, decodes to None.
   */
  lemma EmptyDictNotStable(parse: string -> Option<Value>)
    requires parse("{}") == Some(Dict([]))
    ensures EnsureDecoded(Str("{}"), parse) == Dict([])
    ensures EnsureDecoded(EnsureDecoded(Str("{}"), parse), parse) == Null
  {
  }

  /**
   * Nor on double-encoded scalars: text whose inner string is `5` decodes to
   * the number 5, and a number is not text, so it decodes to None.
   */
  lemma DoubleDecodedScalarNotStable(text: string, parse: string -> Option<Value>)
    requires text != "" && parse(text) == Some(Str("5")) && parse("5") == Some(Number(5.0))
    ensures EnsureDecoded(Str(text), parse) == Number(5.0)
    ensures EnsureDecoded(EnsureDecoded(Str(text), parse), parse) == Null
  {
  }
}
