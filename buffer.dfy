/**
 * The CommunicationBuffer, seen as a sequence of typed tokens with a read cursor.
 * Its byte format belongs to the AttributeSubject layer, which is not part of this
 * model: each primitive write appends one token and each primitive read consumes one.
 * A read that finds no token of the expected kind fails (None) and consumes nothing;
 * it stands for the exception the Java buffer raises on a malformed or short message.
 */
module Buffers {
  import opened Wrappers
  import opened ControlPoints

  datatype Token =
    | IntToken(i: int)
    | StringToken(s: string)
    | StringVectorToken(v: seq<string>)
    | PointListToken(p: ColorControlPointList)
      /** Written by WriteSelect ahead of each selected slot's value. */
    | SelectToken(index: int)

  /** A value taken from the head of the unread tokens, and what follows it. */
  datatype Taken<T> = Taken(value: T, rest: seq<Token>)

  function TakeInt(input: seq<Token>): (r: Option<Taken<int>>)
    ensures r.Some? <==> |input| > 0 && input[0].IntToken?
    ensures r.Some? ==> input == [IntToken(r.value.value)] + r.value.rest
  {
    if |input| > 0 && input[0].IntToken? then Some(Taken(input[0].i, input[1..])) else None
  }

  function TakeString(input: seq<Token>): (r: Option<Taken<string>>)
    ensures r.Some? <==> |input| > 0 && input[0].StringToken?
    ensures r.Some? ==> input == [StringToken(r.value.value)] + r.value.rest
  {
    if |input| > 0 && input[0].StringToken? then Some(Taken(input[0].s, input[1..])) else None
  }

  function TakeStringVector(input: seq<Token>): (r: Option<Taken<seq<string>>>)
    ensures r.Some? <==> |input| > 0 && input[0].StringVectorToken?
    ensures r.Some? ==> input == [StringVectorToken(r.value.value)] + r.value.rest
  {
    if |input| > 0 && input[0].StringVectorToken? then Some(Taken(input[0].v, input[1..])) else None
  }

  function TakePointList(input: seq<Token>): (r: Option<Taken<ColorControlPointList>>)
    ensures r.Some? <==> |input| > 0 && input[0].PointListToken?
    ensures r.Some? ==> input == [PointListToken(r.value.value)] + r.value.rest
    ensures r.Some? ==> r.value.value == input[0].p && r.value.rest == input[1..]
  {
    if |input| > 0 && input[0].PointListToken? then Some(Taken(input[0].p, input[1..])) else None
  }

  class CommunicationBuffer {
    var tokens: seq<Token>
    var pos: nat

    ghost predicate Valid()
      reads this
    {
      pos <= |tokens|
    }

    /** The tokens not yet read. */
    function Unread(): seq<Token>
      reads this
      requires Valid()
    {
      tokens[pos..]
    }

    constructor (input: seq<Token>)
      ensures Valid() && tokens == input && pos == 0
    {
      tokens, pos := input, 0;
    }

    method WriteInt(i: int)
      requires Valid()
      modifies this
      ensures Valid() && tokens == old(tokens) + [IntToken(i)] && pos == old(pos)
    {
      tokens := tokens + [IntToken(i)];
    }

    method WriteString(s: string)
      requires Valid()
      modifies this
      ensures Valid() && tokens == old(tokens) + [StringToken(s)] && pos == old(pos)
    {
      tokens := tokens + [StringToken(s)];
    }

    method WriteStringVector(v: seq<string>)
      requires Valid()
      modifies this
      ensures Valid() && tokens == old(tokens) + [StringVectorToken(v)] && pos == old(pos)
    {
      tokens := tokens + [StringVectorToken(v)];
    }

    /** Stands for ColorControlPointList.Write(buf). */
    method WriteColorControlPointList(p: ColorControlPointList)
      requires Valid()
      modifies this
      ensures Valid() && tokens == old(tokens) + [PointListToken(p)] && pos == old(pos)
    {
      tokens := tokens + [PointListToken(p)];
    }

    /** The slot index that WriteSelect puts ahead of a selected slot. */
    method WriteSelectIndex(index: int)
      requires Valid()
      modifies this
      ensures Valid() && tokens == old(tokens) + [SelectToken(index)] && pos == old(pos)
    {
      tokens := tokens + [SelectToken(index)];
    }

    method ReadInt() returns (r: Option<int>)
      requires Valid()
      modifies this
      ensures Valid() && tokens == old(tokens)
      ensures match TakeInt(old(Unread()))
        case None => r.None? && pos == old(pos)
        case Some(t) => r == Some(t.value) && pos == old(pos) + 1 && Unread() == t.rest
    {
      r := None;
      if pos < |tokens| && tokens[pos].IntToken? {
        r := Some(tokens[pos].i);
        pos := pos + 1;
      }
    }

    method ReadString() returns (r: Option<string>)
      requires Valid()
      modifies this
      ensures Valid() && tokens == old(tokens)
      ensures match TakeString(old(Unread()))
        case None => r.None? && pos == old(pos)
        case Some(t) => r == Some(t.value) && pos == old(pos) + 1 && Unread() == t.rest
    {
      r := None;
      if pos < |tokens| && tokens[pos].StringToken? {
        r := Some(tokens[pos].s);
        pos := pos + 1;
      }
    }

    method ReadStringVector() returns (r: Option<seq<string>>)
      requires Valid()
      modifies this
      ensures Valid() && tokens == old(tokens)
      ensures match TakeStringVector(old(Unread()))
        case None => r.None? && pos == old(pos)
        case Some(t) => r == Some(t.value) && pos == old(pos) + 1 && Unread() == t.rest
    {
      r := None;
      if pos < |tokens| && tokens[pos].StringVectorToken? {
        r := Some(tokens[pos].v);
        pos := pos + 1;
      }
    }

    /** Stands for `new ColorControlPointList()` followed by its Read(buf). */
    method ReadColorControlPointList() returns (r: Option<ColorControlPointList>)
      requires Valid()
      modifies this
      ensures Valid() && tokens == old(tokens)
      ensures match TakePointList(old(Unread()))
        case None => r.None? && pos == old(pos)
        case Some(t) => r == Some(t.value) && pos == old(pos) + 1 && Unread() == t.rest
    {
      r := None;
      if pos < |tokens| && tokens[pos].PointListToken? {
        r := Some(tokens[pos].p);
        pos := pos + 1;
      }
    }
  }
}
