/**
  The `actix_session::Session` handle as the authentication code uses it: a
  mutable map from keys to JSON text, written with `insert`, read with
  `get::<T>`, and cleared with `remove` and `purge`.
*/
module Sessions {
  import opened Wrappers
  import opened JsonText

  type Json = string

  /**
    How values of one type are written to and read from session state
    (`serde_json::to_string` and `serde_json::from_str`). Either direction may fail.
  */
  datatype Codec<!T> = Codec(serialise: T -> Option<Json>, deserialise: Json -> Option<T>)

  /** A codec that reads back every value it manages to write. */
  ghost predicate Lossless<T(!new)>(codec: Codec<T>) {
    forall v: T :: codec.serialise(v).Some? ==> codec.deserialise(codec.serialise(v).value) == Some(v)
  }

  /** The codec of Rust `String`: a JSON string literal, which never fails to write. */
  function StringCodec(): (codec: Codec<string>)
    ensures forall s :: codec.serialise(s) == Some(Quote(s))
  {
    Codec(s => Some(Quote(s)), j => Unquote(j))
  }

  lemma StringCodecLossless()
    ensures Lossless(StringCodec())
  {
    forall s: string
      ensures StringCodec().deserialise(StringCodec().serialise(s).value) == Some(s)
    {
      UnquoteQuote(s);
    }
  }

  /**
    `Session::get::<T>(key)`: `Ok(None)` for a missing key, `Err` when the stored
    text does not read as a `T`, and `Ok(Some(v))` otherwise.
  */
  function Lookup<T>(entries: map<string, Json>, key: string, codec: Codec<T>): (r: Result<Option<T>, Unit>)
    ensures r == Ok(None) <==> key !in entries
    ensures r.Err? <==> key in entries && codec.deserialise(entries[key]).None?
    ensures r.Ok? && r.value.Some? ==> key in entries && codec.deserialise(entries[key]) == Some(r.value.value)
  {
    if key !in entries then Ok(None)
    else match codec.deserialise(entries[key])
      case Some(v) => Ok(Some(v))
      case None => Err(Unit)
  }

  /** What `insert` leaves behind: the value under `key`, every other entry as before. */
  lemma LookupStored<T(!new)>(entries: map<string, Json>, key: string, v: T, codec: Codec<T>)
    requires Lossless(codec) && codec.serialise(v).Some?
    ensures Lookup(entries[key := codec.serialise(v).value], key, codec) == Ok(Some(v))
  {
  }

  /** A string stored under `key` reads back as itself. */
  lemma LookupQuoted(entries: map<string, Json>, key: string, s: string)
    ensures Lookup(entries[key := Quote(s)], key, StringCodec()) == Ok(Some(s))
  {
    UnquoteQuote(s);
  }

  /** Writing or removing one key never changes what another key reads as. */
  lemma LookupOther<T>(entries: map<string, Json>, key: string, other: string, j: Json, codec: Codec<T>)
    requires other != key
    ensures Lookup(entries[key := j], other, codec) == Lookup(entries, other, codec)
    ensures Lookup(entries - {key}, other, codec) == Lookup(entries, other, codec)
  {
  }

  class Session {
    var entries: map<string, Json>

    constructor (entries: map<string, Json>)
      ensures this.entries == entries
    {
      this.entries := entries;
    }

    /**
      `Session::get::<T>(key)` on this session: nothing stored is `Ok(None)`, stored
      text that does not read as a `T` is an error, and otherwise the value read.
    */
    function Get<T>(key: string, codec: Codec<T>): (r: Result<Option<T>, Unit>)
      reads this
      ensures r == Ok(None) <==> key !in entries
      ensures r.Err? <==> key in entries && codec.deserialise(entries[key]).None?
      ensures r.Ok? && r.value.Some? ==> key in entries && codec.deserialise(entries[key]) == Some(r.value.value)
    {
      Lookup(entries, key, codec)
    }

    /** `Session::insert`: fails, changing nothing, when the value cannot be written. */
    method Insert<T>(key: string, value: T, codec: Codec<T>) returns (r: Result<Unit, Unit>)
      modifies this
      ensures codec.serialise(value).None? ==> r.Err? && entries == old(entries)
      ensures codec.serialise(value).Some? ==> r.Ok? && entries == old(entries)[key := codec.serialise(value).value]
    {
      match codec.serialise(value)
      case None =>
        r := Err(Unit);
      case Some(j) =>
        entries := entries[key := j];
        r := Ok(Unit);
    }

    method Remove(key: string)
      modifies this
      ensures entries == old(entries) - {key}
    {
      entries := entries - {key};
    }

    /** `Session::purge`: the whole session is gone. */
    method Purge()
      modifies this
      ensures entries == map[]
    {
      entries := map[];
    }
  }
}
