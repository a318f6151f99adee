/**
 * Framing of a server-sent event stream: blocks are separated by blank lines and arrive in arbitrary
 * chunks. The specification is one leftmost split of the whole text.
 */
module SseFraming {
  import opened Text

  /** An empty line begins at `i`: two line feeds in a row. */
  predicate BlankAt(s: string, i: int) { 0 <= i && i + 2 <= |s| && s[i] == '\n' && s[i + 1] == '\n' }

  /** `text.indexOf("\n\n")`. */
  function IndexOfBlankLine(s: string): (r: int)
    ensures -1 <= r && (r >= 0 ==> BlankAt(s, r))
    ensures forall i :: BlankAt(s, i) ==> 0 <= r <= i
  {
    if |s| < 2 then -1
    else if s[0] == '\n' && s[1] == '\n' then 0
    else
      var r := IndexOfBlankLine(s[1..]);
      assert forall i :: BlankAt(s, i) ==> BlankAt(s[1..], i - 1);
      if r == -1 then -1 else r + 1
  }

  predicate HasBlankLine(s: string) { IndexOfBlankLine(s) >= 0 }

  /** The complete blocks of a text, cut at the leftmost blank line again and again. */
  function Blocks(s: string): seq<string>
    decreases |s|
  {
    var i := IndexOfBlankLine(s);
    if i < 0 then [] else [s[..i]] + Blocks(s[i + 2..])
  }

  /** What follows the last separator. */
  function Rest(s: string): string
    decreases |s|
  {
    var i := IndexOfBlankLine(s);
    if i < 0 then s else Rest(s[i + 2..])
  }

  /** The text that a list of blocks and a rest stand for. */
  function Unframe(blocks: seq<string>, rest: string): string {
    if blocks == [] then rest else blocks[0] + "\n\n" + Unframe(blocks[1..], rest)
  }

  /** A leftmost framing: no block contains or touches an earlier separator, and none is left in the rest. */
  predicate LeftmostFraming(blocks: seq<string>, rest: string) {
    && !HasBlankLine(rest)
    && forall i :: 0 <= i < |blocks| ==> !HasBlankLine(blocks[i] + "\n")
  }

  lemma IndexIsFirst(s: string, i: nat)
    requires BlankAt(s, i)
    requires forall k :: 0 <= k < i ==> !BlankAt(s, k)
    ensures IndexOfBlankLine(s) == i
  {
  }

  /** Blocks and Rest are the leftmost framing of the text, and there is no other. */
  lemma FramingIsUnique(s: string, blocks: seq<string>, rest: string)
    ensures (s == Unframe(blocks, rest) && LeftmostFraming(blocks, rest)) <==> (blocks == Blocks(s) && rest == Rest(s))
  {
    FramingIsLeftmost(s);
    if s == Unframe(blocks, rest) && LeftmostFraming(blocks, rest) {
      AnyFramingIsThis(s, blocks, rest);
    }
  }

  lemma {:induction false} AnyFramingIsThis(s: string, blocks: seq<string>, rest: string)
    requires s == Unframe(blocks, rest) && LeftmostFraming(blocks, rest)
    ensures blocks == Blocks(s) && rest == Rest(s)
    decreases |blocks|
  {
    hide IndexOfBlankLine;
    hide Blocks;
    hide Rest;
    if blocks == [] {
      NoBlocks(s);
    } else {
      var b, tail := blocks[0], Unframe(blocks[1..], rest);
      assert s == b + "\n\n" + tail;
      FirstBlockIsFirst(b, tail);
      hide Unframe;
      AnyFramingIsThis(tail, blocks[1..], rest);
      BlocksFront(s);
      assert blocks == [b] + blocks[1..];
    }
  }

  lemma FirstBlockIsFirst(b: string, tail: string)
    requires !HasBlankLine(b + "\n")
    ensures var s := b + "\n\n" + tail;
            IndexOfBlankLine(s) == |b| && s[..|b|] == b && s[|b| + 2..] == tail
  {
    hide IndexOfBlankLine;
    var s := b + "\n\n" + tail;
    assert forall k :: 0 <= k <= |b| ==> s[k] == (b + "\n")[k];
    assert forall k :: 0 <= k < |b| && BlankAt(s, k) ==> BlankAt(b + "\n", k);
    IndexIsFirst(s, |b|);
  }

  lemma {:induction false} FramingIsLeftmost(s: string)
    ensures s == Unframe(Blocks(s), Rest(s)) && LeftmostFraming(Blocks(s), Rest(s))
    decreases |s|
  {
    hide IndexOfBlankLine;
    var i := IndexOfBlankLine(s);
    if i >= 0 {
      FramingIsLeftmost(s[i + 2..]);
      assert s == s[..i] + "\n\n" + s[i + 2..];
      FirstBlockIsLeftmost(s);
      BlocksFront(s);
    } else {
      NoBlocks(s);
    }
  }

  lemma FirstBlockIsLeftmost(s: string)
    requires HasBlankLine(s)
    ensures !HasBlankLine(s[..IndexOfBlankLine(s)] + "\n")
  {
    hide IndexOfBlankLine;
    var b := s[..IndexOfBlankLine(s)] + "\n";
    assert forall k :: 0 <= k < |b| ==> b[k] == s[k];
    assert forall k :: BlankAt(b, k) ==> BlankAt(s, k);
  }

  /** Splitting can stop anywhere and be resumed with the rest: the heart of chunk independence. */
  lemma {:induction false} FramingResumes(s: string, more: string)
    ensures Blocks(s + more) == Blocks(s) + Blocks(Rest(s) + more)
    ensures Rest(s + more) == Rest(Rest(s) + more)
    decreases |s|
  {
    hide IndexOfBlankLine;
    var i := IndexOfBlankLine(s);
    if i >= 0 {
      var tail := s[i + 2..];
      FirstBlockStays(s, more);
      FramingResumes(tail, more);
      BlocksFront(s);
      BlocksFront(s + more);
      ConcatAssociates([s[..i]], Blocks(tail), Blocks(Rest(tail) + more));
    } else {
      NoBlocks(s);
    }
  }

  lemma FirstBlockStays(s: string, more: string)
    requires HasBlankLine(s)
    ensures var i := IndexOfBlankLine(s);
            IndexOfBlankLine(s + more) == i && (s + more)[..i] == s[..i] && (s + more)[i + 2..] == s[i + 2..] + more
  {
    hide IndexOfBlankLine;
    var i := IndexOfBlankLine(s);
    assert forall k :: 0 <= k < |s| ==> (s + more)[k] == s[k];
    assert forall k :: 0 <= k < i && BlankAt(s + more, k) ==> BlankAt(s, k);
    IndexIsFirst(s + more, i);
  }

  lemma BlocksFront(s: string)
    requires HasBlankLine(s)
    ensures var i := IndexOfBlankLine(s);
            Blocks(s) == [s[..i]] + Blocks(s[i + 2..]) && Rest(s) == Rest(s[i + 2..])
  {
    hide IndexOfBlankLine;
  }

  lemma NoBlocks(s: string)
    requires !HasBlankLine(s)
    ensures Blocks(s) == [] && Rest(s) == s
  {
    hide IndexOfBlankLine;
  }

  lemma RestHasNoBlankLine(s: string)
    ensures !HasBlankLine(Rest(s))
    ensures Blocks(Rest(s)) == [] && Rest(Rest(s)) == Rest(s)
  {
    FramingIsLeftmost(s);
  }

  // ---------- blocks to events ----------

  /** The event a block stands for: the parsed `data:` payload; pings and unparsable blocks give nothing. */
  function BlockEvents<T>(parse: string -> Option<T>, block: string): seq<T> {
    if "data:" <= block then
      match parse(Trim(block[5..])) case Some(v) => [v] case None => []
    else []
  }

  function EventsOf<T>(parse: string -> Option<T>): string -> seq<T> {
    block => BlockEvents(parse, block)
  }

  /** Everything one connection delivers from the text it received. */
  function Delivered<T>(parse: string -> Option<T>, text: string): seq<T> {
    FlatMap(EventsOf(parse), Blocks(text))
  }

  /** A block that is a `data:` payload which parses to `v`. */
  ghost predicate Gives<T>(parse: string -> Option<T>, block: string, v: T) {
    exists payload :: block == "data:" + payload && parse(Trim(payload)) == Some(v)
  }

  /** `events` are the values there are, in order, each from its own place in `at`. */
  ghost predicate PicksOut<T(!new)>(values: seq<Option<T>>, at: seq<nat>, events: seq<T>) {
    && |at| == |events|
    && (forall k :: 0 <= k < |at| ==> at[k] < |values| && values[at[k]] == Some(events[k]))
    && (forall k, l :: 0 <= k < l < |at| ==> at[k] < at[l])
    && (forall i: nat :: i < |values| && values[i].Some? ==> i in at)
  }

  /** `values[i]` is what block `i` gives, if anything. */
  ghost predicate ValuesOf<T(!new)>(parse: string -> Option<T>, blocks: seq<string>, values: seq<Option<T>>) {
    |values| == |blocks| && forall i, v :: 0 <= i < |blocks| ==> (values[i] == Some(v) <==> Gives(parse, blocks[i], v))
  }

  /** The events of a text are the values of those of its blocks that are parsable `data:` payloads, in order and once each. */
  lemma DeliveredIsTheParsedData<T(!new)>(parse: string -> Option<T>, blocks: seq<string>, rest: string)
    returns (values: seq<Option<T>>, at: seq<nat>)
    requires LeftmostFraming(blocks, rest)
    ensures ValuesOf(parse, blocks, values) && PicksOut(values, at, Delivered(parse, Unframe(blocks, rest)))
  {
    FramingIsUnique(Unframe(blocks, rest), blocks, rest);
    hide LeftmostFraming;
    hide Unframe;
    hide PicksOut;
    hide ValuesOf;
    values, at := EventsPickOut(parse, blocks);
  }

  lemma {:induction false} EventsPickOut<T(!new)>(parse: string -> Option<T>, blocks: seq<string>)
    returns (values: seq<Option<T>>, at: seq<nat>)
    ensures ValuesOf(parse, blocks, values) && PicksOut(values, at, FlatMap(EventsOf(parse), blocks))
  {
    if blocks == [] {
      values, at := [], [];
    } else {
      hide *;
      var init, last := blocks[..|blocks| - 1], blocks[|blocks| - 1];
      var before, places := EventsPickOut(parse, init);
      var value := ValueOf(parse, last);
      FlatMapLast(EventsOf(parse), blocks);
      OneMoreValueOf(parse, blocks, before, value);
      values := before + [value];
      at := OneMoreValue(before, places, FlatMap(EventsOf(parse), init), value);
    }
  }

  lemma OneMoreValueOf<T(!new)>(parse: string -> Option<T>, blocks: seq<string>, values: seq<Option<T>>, value: Option<T>)
    requires blocks != [] && ValuesOf(parse, blocks[..|blocks| - 1], values) && IsValue(parse, blocks[|blocks| - 1], value)
    ensures ValuesOf(parse, blocks, values + [value])
  {
    hide Gives;
    assert blocks == blocks[..|blocks| - 1] + [blocks[|blocks| - 1]];
  }

  ghost predicate IsValue<T(!new)>(parse: string -> Option<T>, block: string, value: Option<T>) {
    forall v :: value == Some(v) <==> Gives(parse, block, v)
  }

  lemma ValueOf<T(!new)>(parse: string -> Option<T>, block: string) returns (value: Option<T>)
    ensures IsValue(parse, block, value)
    ensures EventsOf(parse)(block) == match value case Some(v) => [v] case None => []
  {
    if "data:" <= block {
      var payload := block[5..];
      assert block == "data:" + payload;
      PayloadGives(parse, payload);
      value := parse(Trim(payload));
    } else {
      NoPayload(parse, block);
      value := None;
    }
    hide Gives;
    hide Trim;
  }

  lemma PayloadGives<T(!new)>(parse: string -> Option<T>, payload: string)
    ensures forall v :: parse(Trim(payload)) == Some(v) <==> Gives(parse, "data:" + payload, v)
  {
    hide Trim;
    forall v | Gives(parse, "data:" + payload, v)
      ensures parse(Trim(payload)) == Some(v)
    {
      var other :| "data:" + payload == "data:" + other && parse(Trim(other)) == Some(v);
      assert ("data:" + payload)[5..] == payload && ("data:" + other)[5..] == other;
    }
  }

  lemma NoPayload<T(!new)>(parse: string -> Option<T>, block: string)
    requires !("data:" <= block)
    ensures forall v :: !Gives(parse, block, v)
  {
  }

  lemma OneMoreValue<T(!new)>(values: seq<Option<T>>, at: seq<nat>, events: seq<T>, value: Option<T>) returns (places: seq<nat>)
    requires PicksOut(values, at, events)
    ensures PicksOut(values + [value], places, events + match value case Some(v) => [v] case None => [])
  {
    var n := |values|;
    if value.Some? {
      places := at + [n];
      assert places[|at|] == n && forall x :: x in at ==> x in places;
    } else {
      places := at;
      assert events + [] == events;
    }
  }

  lemma FlatMapLast<A, B>(f: A -> seq<B>, s: seq<A>)
    requires s != []
    ensures FlatMap(f, s) == FlatMap(f, s[..|s| - 1]) + f(s[|s| - 1])
  {
    var init, last := s[..|s| - 1], s[|s| - 1];
    assert s == init + [last] && [last][1..] == [];
    FlatMapConcat(f, init, [last]);
    assert FlatMap(f, [last]) == f(last) + FlatMap(f, [last][1..]);
  }

  lemma DeliveredFront<T>(parse: string -> Option<T>, text: string)
    requires HasBlankLine(text)
    ensures var i := IndexOfBlankLine(text);
            Delivered(parse, text) == BlockEvents(parse, text[..i]) + Delivered(parse, text[i + 2..])
  {
    hide IndexOfBlankLine;
    hide Blocks;
    hide BlockEvents;
    var i := IndexOfBlankLine(text);
    BlocksFront(text);
    var blocks := Blocks(text);
    assert blocks[0] == text[..i] && blocks[1..] == Blocks(text[i + 2..]);
    assert EventsOf(parse)(blocks[0]) == BlockEvents(parse, blocks[0]);
  }

  lemma DeliveredResumes<T>(parse: string -> Option<T>, text: string, more: string)
    ensures Delivered(parse, text + more) == Delivered(parse, text) + Delivered(parse, Rest(text) + more)
  {
    FramingResumes(text, more);
    FlatMapConcat(EventsOf(parse), Blocks(text), Blocks(Rest(text) + more));
  }

  /** Reads a list of chunks one after the other, the way the reader does. */
  function ReadChunks<T>(parse: string -> Option<T>, chunks: seq<string>, buffer: string): (seq<T>, string) {
    if chunks == [] then ([], buffer) else
    var text := buffer + chunks[0];
    var (events, rest) := ReadChunks(parse, chunks[1..], Rest(text));
    (Delivered(parse, text) + events, rest)
  }

  /** However the text is cut into chunks, the same events come out in the same order and the same rest stays. */
  lemma {:induction false} ChunkIndependence<T>(parse: string -> Option<T>, chunks: seq<string>, buffer: string)
    requires !HasBlankLine(buffer)
    ensures ReadChunks(parse, chunks, buffer) ==
            (Delivered(parse, buffer + Flatten(chunks)), Rest(buffer + Flatten(chunks)))
  {
    if chunks == [] {
      assert buffer + Flatten(chunks) == buffer;
    } else {
      var text := buffer + chunks[0];
      RestHasNoBlankLine(text);
      var more := Flatten(chunks[1..]);
      ChunkIndependence(parse, chunks[1..], Rest(text));
      DeliveredResumes(parse, text, more);
      FramingResumes(text, more);
      ConcatAssociates(buffer, chunks[0], more);
    }
  }
}
