/** The parser itself: an offset and a depth that move, and blocks that are allocated and released. */
module JsonParser {
  import opened Decimal
  import opened Json
  import opened JsonText
  import opened JsonSpace
  import opened Memory
  import opened Utf
  import opened Wrappers

  class Parser {
    const content: string
    const heap: Heap
    var offset: nat
    var depth: nat

    ghost predicate Valid()
      reads this, heap
    {
      heap.Valid() && Terminated(content) && offset < |content| && depth <= NESTING_LIMIT
    }

    /** A parser at the start of a C string. */
    constructor (text: string, heap: Heap)
      requires NulFree(text) && heap.Valid()
      ensures Valid() && content == text + [NUL] && this.heap == heap && offset == 0 && depth == 0
    {
      content, this.heap := text + [NUL], heap;
      offset, depth := 0, 0;
      assert (text + [NUL])[..|text|] == text;
    }

    method SkipBlanks()
      requires offset < |content|
      modifies this`offset
      ensures offset == SkipWhitespace(content, old(offset))
    {
      while offset < |content| && content[offset] <= ' '
        invariant old(offset) <= offset <= |content|
        invariant SkipBlank(content, offset) == SkipBlank(content, old(offset))
      {
        offset := offset + 1;
      }
      if offset == |content| {
        offset := offset - 1;
      }
    }

    /** The number characters at the offset, at most 63 of them. */
    method CopyNumber() returns (numberString: string)
      requires offset < |content|
      ensures numberString == content[offset..SpanNumber(content, offset, 63)]
    {
      hide *;
      numberString := "";
      var i := 0;
      while i < 63 && offset + i < |content| && IsNumberChar(content[offset + i])
        invariant 0 <= i <= 63 && offset + i <= |content| && numberString == content[offset..offset + i]
        invariant SpanNumber(content, offset + i, 63 - i) == SpanNumber(content, offset, 63)
      {
        SpanStep(content, offset + i, 63 - i);
        SliceSnoc(content, offset, offset + i);
        numberString := numberString + [content[offset + i]];
        i := i + 1;
      }
      SpanStep(content, offset + i, 63 - i);
    }

    /** `parse_number`: at most 63 number characters are copied out and handed to `strtod`. */
    method ParseNumberItem() returns (ok: bool, body: Body)
      requires offset < |content|
      modifies this`offset
      ensures ok ==> body.NumberBody? && ParseNumber(content, old(offset)) == Ok(Number(body.r), offset)
      ensures !ok ==> ParseNumber(content, old(offset)) == Err(offset)
      ensures offset <= |content|
    {
      hide Strtod, SpanNumber;
      body := InvalidBody;
      var numberString := CopyNumber();
      var (number, used) := Strtod(numberString);
      if used == 0 {
        return false, body;
      }
      body := NumberBody(number);
      offset := offset + used;
      ok := true;
    }

    /** `utf16_literal_to_utf8`: writes the bytes of one literal at `written`, last byte first; a length of 0 is an
        error.  Bit masks are written as arithmetic: the low six bits are the remainder by 0x40. */
    method LiteralToUtf8(i: nat, end: nat, output: array<char>, written: nat) returns (length: nat, next: nat)
      requires i < end < |content|
      requires Utf16Literal(content, i, end).Some? ==>
                 written + |Utf8Bytes(Utf16Literal(content, i, end).value.codePoint)| <= output.Length
      requires written <= output.Length
      modifies output
      ensures output[..written] == old(output[..written])
      ensures Utf16Literal(content, i, end).None? ==> length == 0 && next == written
      ensures Utf16Literal(content, i, end).Some? ==>
                var l := Utf16Literal(content, i, end).value;
                && length == l.length
                && next == written + |Utf8Bytes(l.codePoint)|
                && output[written..next] == Utf8Bytes(l.codePoint)
    {
      hide Utf8Bytes, Utf16Literal;
      var codePoint;
      length, codePoint := ReadLiteral(i, end);
      next := written;
      if length > 0 {
        next := EncodeUtf8(codePoint, output, written);
      }
    }

    /** The part of it that reads the literal. */
    method ReadLiteral(i: nat, end: nat) returns (length: nat, codePoint: nat)
      requires i < end < |content|
      ensures Utf16Literal(content, i, end).None? ==> length == 0
      ensures Utf16Literal(content, i, end).Some? ==>
                length > 0 && Utf16Literal(content, i, end) == Some(Literal(codePoint, length))
    {
      hide ParseHex4;
      length, codePoint := 0, 0;
      if end - i < 6 {
        return;
      }
      var first := ParseHex4(content[i + 2..i + 6]);
      if 0xDC00 <= first <= 0xDFFF {
        return;
      }
      if 0xD800 <= first <= 0xDBFF {
        if end - (i + 6) < 6 {
          return;
        }
        if content[i + 6] != '\\' || content[i + 7] != 'u' {
          return;
        }
        var second := ParseHex4(content[i + 8..i + 12]);
        if second < 0xDC00 || second > 0xDFFF {
          return;
        }
        length := 12;
        codePoint := 0x10000 + first % 0x400 * 0x400 + second % 0x400;
      } else {
        length := 6;
        codePoint := first;
      }
    }

    /** Continuation bytes from the last to the second, then the first byte with its length mark. */
    static method EncodeUtf8(codePoint: nat, output: array<char>, written: nat) returns (next: nat)
      requires codePoint <= 0x10FFFF && written + |Utf8Bytes(codePoint)| <= output.Length
      modifies output
      ensures output[..written] == old(output[..written])
      ensures next == written + |Utf8Bytes(codePoint)| && output[written..next] == Utf8Bytes(codePoint)
    {
      hide Utf8Bytes;
      var count, mark := 1, 0;
      if codePoint < 0x80 {
      } else if codePoint < 0x800 {
        count, mark := 2, 0xC0;
      } else if codePoint < 0x10000 {
        count, mark := 3, 0xE0;
      } else {
        count, mark := 4, 0xF0;
      }
      LeadByte(codePoint);
      var rest, position := codePoint, count - 1;
      while position > 0
        invariant 0 <= position < count
        invariant rest == Shifted(codePoint, count - 1 - position)
        invariant output[..written] == old(output[..written])
        invariant forall k :: written + position < k < written + count ==> output[k] == Utf8Bytes(codePoint)[k - written]
      {
        TailByte(codePoint, position);
        output[written + position] := (0x80 + rest % 0x40) as char;
        rest := rest / 0x40;
        position := position - 1;
      }
      output[written] := (mark + rest) as char;
      next := written + count;
    }

    /** The scanning pass of `parse_string`: the closing quote and how many escapes were skipped on the way. */
    method ScanPass() returns (found: bool, end: nat, skipped: nat)
      requires offset < |content|
      ensures found <==> ScanString(content, offset + 1).Some?
      ensures found ==> ScanString(content, offset + 1) == Some(end) && skipped == Skipped(content, offset + 1, end)
    {
      found, end, skipped := false, offset + 1, 0;
      while end < |content| && content[end] != '"'
        invariant offset + 1 <= end <= |content|
        invariant ScanString(content, offset + 1) == ScanString(content, end)
        invariant forall p :: end <= p <= |content| ==>
                                Skipped(content, offset + 1, p) == skipped + Skipped(content, end, p)
      {
        ghost var was := end;
        if content[end] == '\\' {
          if end + 1 >= |content| {
            return;
          }
          skipped := skipped + 1;
          end := end + 1;
        }
        end := end + 1;
        forall p | end <= p <= |content|
          ensures Skipped(content, offset + 1, p) == skipped + Skipped(content, end, p)
        {
          assert Skipped(content, was, p) == (end - was - 1) + Skipped(content, end, p);
        }
      }
      found := end < |content|;
      assert Skipped(content, end, end) == 0;
    }

    /** The decoding pass: fills `output`, which has the size the scanning pass asked for. */
    method DecodePass(end: nat, output: array<char>) returns (ok: bool, pointer: nat, written: nat)
      requires offset < end < |content|
      requires output.Length == (end - offset - Skipped(content, offset + 1, end)) + 1
      modifies output
      ensures ok ==> written < output.Length && Decode(content, offset + 1, end) == Decoded(output[..written])
      ensures !ok ==> Decode(content, offset + 1, end) == Bad(pointer)
    {
      hide Utf8Bytes, Utf16Literal, Skipped, Room, Decode, Unescape, Before;
      var start := offset + 1;
      pointer, written := start, 0;
      AllocationSuffices(content, offset, end);
      RoomAtStart(content, start, end);
      BeforeNothing(Decode(content, start, end));
      while pointer < end
        invariant start <= pointer <= end + 1
        invariant written + Room(content, start, pointer, end) <= end - offset - Skipped(content, start, end)
        invariant written <= output.Length
        invariant Decode(content, start, end) == Before(output[..written], Decode(content, pointer, end))
        decreases end + 1 - pointer
      {
        StepFits(content, start, pointer, end);
        DecodeStep(content, pointer, end);
        ghost var before := output[..written];
        if content[pointer] != '\\' {
          output[written] := content[pointer];
          assert output[..written + 1] == before + [content[pointer]];
          BeforeBefore(before, [content[pointer]], Decode(content, pointer + 1, end));
          pointer, written := pointer + 1, written + 1;
        } else if content[pointer + 1] == 'u' {
          var l := Utf16Literal(content, pointer, end);
          if l.Some? {
            BeforeBefore(before, Utf8Bytes(l.value.codePoint), Decode(content, pointer + l.value.length, end));
          }
          var length, next := LiteralToUtf8(pointer, end, output, written);
          if length == 0 {
            return false, pointer, written;
          }
          assert output[..next] == before + output[written..next];
          pointer, written := pointer + length, next;
        } else {
          var ch := Unescape(content[pointer + 1]);
          if ch.None? {
            return false, pointer, written;
          }
          output[written] := ch.value;
          assert output[..written + 1] == before + [ch.value];
          BeforeBefore(before, [ch.value], Decode(content, pointer + 2, end));
          pointer, written := pointer + 2, written + 1;
        }
      }
      RoomIsLeft(content, start, pointer, end);
      DecodeStep(content, pointer, end);
      ok := true;
    }

    /** `parse_string`.  Without a refused allocation it does exactly what `ParseString` says, error position
        included; a failure leaves no block behind. */
    method ParseStringItem() returns (ok: bool, chunk: Chunk)
      requires Valid()
      modifies this`offset, heap
      ensures heap.Valid() && offset <= |content|
      ensures ok ==> ParseString(content, old(offset)) == Ok(chunk.text, offset)
                     && heap.live == old(heap.live) + multiset{chunk.addr} && heap.refusals == old(heap.refusals)
      ensures !ok ==> heap.live == old(heap.live)
      ensures !ok ==> heap.refusals > old(heap.refusals) || ParseString(content, old(offset)) == Err(offset)
    {
      hide ParseString, Skipped, Decode, ScanString, CString, Terminated, Heap.Valid, NulFree;
      ok, chunk := false, Chunk(0, "");
      StringSteps(content, offset);
      var inputPointer := offset + 1;
      if content[offset] != '"' {
        offset := inputPointer;
        return;
      }
      var found, end, skipped := ScanPass();
      if !found {
        offset := inputPointer;
        return;
      }
      AllocationSuffices(content, offset, end);
      var length := end - offset - skipped;
      var granted, addr := heap.Allocate();
      if !granted {
        offset := inputPointer;
        return;
      }
      var output := new char[length + 1];
      var decoded, pointer, written := DecodePass(end, output);
      if !decoded {
        heap.Free(addr);
        offset := pointer;
        return;
      }
      ghost var text := output[..written];
      output[written] := NUL;
      CStringOfBuffer(text, output[..]);
      chunk := Chunk(addr, CString(output[..]));
      offset := end + 1;
      ok := true;
    }

    /** `parse_value`: dispatches on what the text starts with. */
    method ParseValueItem() returns (ok: bool, body: Body)
      requires Valid()
      modifies this`offset, this`depth, heap
      ensures heap.Valid() && offset <= |content| && old(depth) <= depth <= NESTING_LIMIT
      ensures ok ==> offset < |content| && depth == old(depth) && Complete(body)
                     && ParseValue(content, old(offset), old(depth)) == Ok(ValueOf(body), offset)
      ensures ok ==> heap.live == old(heap.live) + BodyBlocks(body) && heap.refusals == old(heap.refusals)
      ensures !ok ==> heap.live == old(heap.live)
      ensures !ok ==> heap.refusals > old(heap.refusals)
                      || ParseValue(content, old(offset), old(depth)) == Err(offset)
      decreases |content| - offset, 4
    {
      hide ParseString, ParseNumber, ParseArray, ParseObject;
      ok, body := true, InvalidBody;
      if StartsWith(content, offset, "null") {
        offset, body := offset + 4, NullBody;
      } else if StartsWith(content, offset, "false") {
        offset, body := offset + 5, BoolBody(false);
      } else if StartsWith(content, offset, "true") {
        offset, body := offset + 4, BoolBody(true);
      } else if content[offset] == '"' {
        var chunk;
        ok, chunk := ParseStringItem();
        if ok {
          body := StringBody(chunk);
        }
      } else if content[offset] == '-' || IsDigit(content[offset]) {
        ok, body := ParseNumberItem();
      } else if content[offset] == '[' {
        ok, body := ParseArrayItem();
      } else if content[offset] == '{' {
        ok, body := ParseObjectItem();
      } else {
        ok := false;
      }
    }

    /** One turn of the loop of `parse_array`: a new node at the end of the list, and its value.  All live blocks
        beyond `base` belong to the list, whether or not the turn succeeds. */
    method NextElement(items: seq<Item>, ghost base: multiset<nat>) returns (ok: bool, longer: seq<Item>)
      requires Valid() && offset + 1 < |content| && CompleteElements(items) && heap.live == base + Blocks(items)
      modifies this`offset, this`depth, heap
      ensures heap.Valid() && offset <= |content| && old(depth) <= depth <= NESTING_LIMIT
      ensures heap.live == base + Blocks(longer)
      ensures ok ==> old(offset) < offset < |content| && depth == old(depth) && heap.refusals == old(heap.refusals)
      ensures ok ==> |longer| == |items| + 1 && longer[..|items|] == items && CompleteElements(longer)
                     && ParseValue(content, SkipWhitespace(content, old(offset) + 1), old(depth))
                        == Ok(ValueOf(longer[|items|].body), offset)
      ensures !ok ==> heap.refusals > old(heap.refusals)
                      || ParseValue(content, SkipWhitespace(content, old(offset) + 1), old(depth)) == Err(offset)
      decreases |content| - offset, 1
    {
      hide ParseValue, Blocks, BodyBlocks, CompleteElements, Complete, Heap.Valid, Terminated, SkipWhitespace, ValueOf;
      var node;
      ok, longer, node := StartNode(items, base);
      if !ok {
        return;
      }
      var element;
      ok, element := ParseValueItem();
      if ok {
        longer := items + [node.(body := element)];
        BlocksSnoc(items, node.(body := element));
        ElementsComplete(items, node.(body := element));
      }
    }

    /** How a turn of either loop begins: a new node at the end of the list, and the blanks in front of what it is to
        hold. */
    method StartNode(items: seq<Item>, ghost base: multiset<nat>) returns (ok: bool, longer: seq<Item>, node: Item)
      requires Valid() && offset + 1 < |content| && heap.live == base + Blocks(items)
      modifies this`offset, heap
      ensures heap.Valid() && offset < |content| && heap.live == base + Blocks(longer)
      ensures ok ==> node == Item(node.addr, None, InvalidBody) && longer == items + [node]
                     && heap.live == base + Blocks(items) + multiset{node.addr} && heap.refusals == old(heap.refusals)
                     && old(offset) < offset == SkipWhitespace(content, old(offset) + 1)
      ensures !ok ==> heap.refusals > old(heap.refusals)
    {
      hide Blocks, Heap.Valid, Terminated, SkipWhitespace;
      ok, longer, node := false, items, Item(0, None, InvalidBody);
      var granted, addr := heap.Allocate();
      if !granted {
        return;
      }
      node := Item(addr, None, InvalidBody);
      longer := items + [node];
      BlocksSnoc(items, node);
      offset := offset + 1;
      SkipBlanks();
      ok := true;
    }

    /** `parse_array`: one node per element, and all of them released again on any failure. */
    method ParseArrayItem() returns (ok: bool, body: Body)
      requires Valid() && content[offset] == '['
      modifies this`offset, this`depth, heap
      ensures heap.Valid() && offset <= |content| && old(depth) <= depth <= NESTING_LIMIT
      ensures ok ==> offset < |content| && depth == old(depth) && Complete(body)
                     && ParseArray(content, old(offset), old(depth)) == Ok(ValueOf(body), offset)
      ensures ok ==> heap.live == old(heap.live) + BodyBlocks(body) && heap.refusals == old(heap.refusals)
      ensures !ok ==> heap.live == old(heap.live)
      ensures !ok ==> heap.refusals > old(heap.refusals)
                      || ParseArray(content, old(offset), old(depth)) == Err(offset)
      decreases |content| - offset, 3
    {
      hide ParseArray, ParseElements, Heap.Valid, Blocks, Elements;
      ok, body := false, InvalidBody;
      ArraySteps(content, offset, depth);
      if depth >= NESTING_LIMIT {
        return;
      }
      depth := depth + 1;
      offset := offset + 1;
      SkipBlanks();
      var items: seq<Item> := [];
      NoBlocks();
      if content[offset] != ']' {
        offset := offset - 1;
        var parsed;
        parsed, items := ParseList();
        if !parsed {
          return;
        }
      }
      depth := depth - 1;
      body := ArrayBody(items);
      offset := offset + 1;
      ok := true;
    }

    /** The loop of `parse_array`, from the character in front of the first element to the closing bracket. */
    method ParseList() returns (ok: bool, items: seq<Item>)
      requires Valid() && offset + 1 < |content|
      modifies this`offset, this`depth, heap
      ensures heap.Valid() && offset <= |content| && old(depth) <= depth <= NESTING_LIMIT
      ensures ok ==> offset + 1 < |content| && depth == old(depth) && CompleteElements(items)
                     && ParseElements(content, old(offset), old(depth)) == Ok(Elements(items), offset + 1)
      ensures ok ==> heap.live == old(heap.live) + Blocks(items) && heap.refusals == old(heap.refusals)
      ensures !ok ==> heap.live == old(heap.live)
      ensures !ok ==> heap.refusals > old(heap.refusals)
                      || ParseElements(content, old(offset), old(depth)) == Err(offset)
      decreases |content| - offset, 2
    {
      hide ParseValue, ParseElements, Heap.Valid, Blocks, CompleteElements, Elements, Prepend, SkipWhitespace, Terminated;
      ok, items := false, [];
      NoBlocks();
      PrependNothing(ParseElements(content, offset, depth));
      var more := true;
      while more
        invariant Valid() && depth == old(depth) && old(offset) <= offset
        invariant more ==> offset + 1 < |content|
        invariant CompleteElements(items)
        invariant heap.live == old(heap.live) + Blocks(items) && heap.refusals == old(heap.refusals)
        invariant more ==> ParseElements(content, old(offset), depth)
                           == Prepend(Elements(items), ParseElements(content, offset, depth))
        invariant !more ==> ParseElements(content, old(offset), depth)
                            == if content[offset] == ']' then Ok(Elements(items), offset + 1) else Err(offset)
        decreases |content| - offset, more
      {
        ghost var front := items;
        ElementStep(content, offset, depth, Elements(front));
        var parsed;
        parsed, items := NextElement(items, old(heap.live));
        if !parsed {
          Delete(heap, items);
          return;
        }
        ElementsSnoc(front, items);
        SkipBlanks();
        NotLast(content, offset);
        more := content[offset] == ',';
      }
      if content[offset] != ']' {
        Delete(heap, items);
        return;
      }
      ok := true;
    }

    /** One turn of the loop of `parse_object`: a new node, its key, the colon and its value. */
    method NextMember(items: seq<Item>, ghost base: multiset<nat>) returns (ok: bool, longer: seq<Item>)
      requires Valid() && offset + 1 < |content| && CompleteMembers(items) && heap.live == base + Blocks(items)
      modifies this`offset, this`depth, heap
      ensures heap.Valid() && offset <= |content| && old(depth) <= depth <= NESTING_LIMIT
      ensures heap.live == base + Blocks(longer)
      ensures ok ==> old(offset) < offset < |content| && depth == old(depth) && heap.refusals == old(heap.refusals)
      ensures ok ==> |longer| == |items| + 1 && longer[..|items|] == items && CompleteMembers(longer)
                     && ParseMember(content, old(offset), old(depth))
                        == Ok(Member(longer[|items|].key.value.text, ValueOf(longer[|items|].body)), offset)
      ensures !ok ==> heap.refusals > old(heap.refusals) || ParseMember(content, old(offset), old(depth)) == Err(offset)
      decreases |content| - offset, 1
    {
      hide ParseString, ParseValue, Blocks, BodyBlocks, CompleteMembers, Complete, Heap.Valid, Terminated, SkipWhitespace;
      var node;
      ok, longer, node := StartMember(items, base);
      if !ok {
        return;
      }
      if content[offset] != ':' {
        return false, longer;
      }
      NotLast(content, offset);
      offset := offset + 1;
      SkipBlanks();
      var value;
      ok, value := ParseValueItem();
      if ok {
        longer := items + [node.(body := value)];
        BlocksSnoc(items, node.(body := value));
        CompleteSnoc(items, node.(body := value));
      }
    }

    /** The first half of that turn: the new node and its key. */
    method StartMember(items: seq<Item>, ghost base: multiset<nat>) returns (ok: bool, longer: seq<Item>, node: Item)
      requires Valid() && offset + 1 < |content| && heap.live == base + Blocks(items)
      modifies this`offset, heap
      ensures heap.Valid() && offset <= |content| && heap.live == base + Blocks(longer)
      ensures ok ==> longer == items + [node] && node.key.Some? && node.body == InvalidBody
                     && heap.live == base + Blocks(items) + multiset{node.addr} + ChunkBlocks(node.key)
                     && heap.refusals == old(heap.refusals)
      ensures ok ==> var p := ParseString(content, SkipWhitespace(content, old(offset) + 1));
                     p.Ok? && node.key.value.text == p.value
                     && old(offset) + 1 < offset < |content| && offset == SkipWhitespace(content, p.offset)
      ensures !ok ==> heap.refusals > old(heap.refusals)
                      || ParseString(content, SkipWhitespace(content, old(offset) + 1)) == Err(offset)
    {
      hide ParseString, Blocks, Heap.Valid, Terminated, SkipWhitespace;
      ok, longer, node := StartNode(items, base);
      if !ok {
        return;
      }
      var key;
      ok, key := ParseKey();
      if ok {
        // the name was read as the string value, and is moved to the key
        node := node.(key := Some(key));
        longer := items + [node];
        BlocksSnoc(items, node);
      }
    }

    /** The key of a member, and the blanks behind it. */
    method ParseKey() returns (ok: bool, key: Chunk)
      requires Valid()
      modifies this`offset, heap
      ensures heap.Valid() && offset <= |content|
      ensures ok ==> offset < |content| && ParseString(content, old(offset)).Ok?
                     && key.text == ParseString(content, old(offset)).value
                     && old(offset) < offset == SkipWhitespace(content, ParseString(content, old(offset)).offset)
                     && heap.live == old(heap.live) + multiset{key.addr} && heap.refusals == old(heap.refusals)
      ensures !ok ==> heap.live == old(heap.live)
      ensures !ok ==> heap.refusals > old(heap.refusals) || ParseString(content, old(offset)) == Err(offset)
    {
      hide ParseString, Heap.Valid, SkipWhitespace;
      ok, key := ParseStringItem();
      if ok {
        SkipBlanks();
      }
    }

    /** `parse_object`: one node per member, and all of them released again on any failure. */
    method ParseObjectItem() returns (ok: bool, body: Body)
      requires Valid() && content[offset] == '{'
      modifies this`offset, this`depth, heap
      ensures heap.Valid() && offset <= |content| && old(depth) <= depth <= NESTING_LIMIT
      ensures ok ==> offset < |content| && depth == old(depth) && Complete(body)
                     && ParseObject(content, old(offset), old(depth)) == Ok(ValueOf(body), offset)
      ensures ok ==> heap.live == old(heap.live) + BodyBlocks(body) && heap.refusals == old(heap.refusals)
      ensures !ok ==> heap.live == old(heap.live)
      ensures !ok ==> heap.refusals > old(heap.refusals)
                      || ParseObject(content, old(offset), old(depth)) == Err(offset)
      decreases |content| - offset, 3
    {
      hide ParseObject, ParseMembers, Heap.Valid, Blocks, Members;
      ok, body := false, InvalidBody;
      ObjectSteps(content, offset, depth);
      if depth >= NESTING_LIMIT {
        return;
      }
      depth := depth + 1;
      offset := offset + 1;
      SkipBlanks();
      var items: seq<Item> := [];
      NoBlocks();
      if content[offset] != '}' {
        offset := offset - 1;
        var parsed;
        parsed, items := ParseMemberList();
        if !parsed {
          return;
        }
      }
      depth := depth - 1;
      body := ObjectBody(items);
      offset := offset + 1;
      ok := true;
    }

    /** The loop of `parse_object`, from the character in front of the first key to the closing brace. */
    method ParseMemberList() returns (ok: bool, items: seq<Item>)
      requires Valid() && offset + 1 < |content|
      modifies this`offset, this`depth, heap
      ensures heap.Valid() && offset <= |content| && old(depth) <= depth <= NESTING_LIMIT
      ensures ok ==> offset + 1 < |content| && depth == old(depth) && CompleteMembers(items)
                     && ParseMembers(content, old(offset), old(depth)) == Ok(Members(items), offset + 1)
      ensures ok ==> heap.live == old(heap.live) + Blocks(items) && heap.refusals == old(heap.refusals)
      ensures !ok ==> heap.live == old(heap.live)
      ensures !ok ==> heap.refusals > old(heap.refusals)
                      || ParseMembers(content, old(offset), old(depth)) == Err(offset)
      decreases |content| - offset, 2
    {
      hide ParseMember, ParseMembers, Heap.Valid, Blocks, CompleteMembers, Members, Prepend, SkipWhitespace, Terminated;
      ok, items := false, [];
      NoBlocks();
      PrependNothing(ParseMembers(content, offset, depth));
      var more := true;
      while more
        invariant Valid() && depth == old(depth) && old(offset) <= offset
        invariant more ==> offset + 1 < |content|
        invariant CompleteMembers(items)
        invariant heap.live == old(heap.live) + Blocks(items) && heap.refusals == old(heap.refusals)
        invariant more ==> ParseMembers(content, old(offset), depth)
                           == Prepend(Members(items), ParseMembers(content, offset, depth))
        invariant !more ==> ParseMembers(content, old(offset), depth)
                            == if content[offset] == '}' then Ok(Members(items), offset + 1) else Err(offset)
        decreases |content| - offset, more
      {
        ghost var front := items;
        MemberStep(content, offset, depth, Members(front));
        var parsed;
        parsed, items := NextMember(items, old(heap.live));
        if !parsed {
          Delete(heap, items);
          return;
        }
        MembersSnoc(front, items);
        SkipBlanks();
        NotLast(content, offset);
        more := content[offset] == ',';
      }
      if content[offset] != '}' {
        Delete(heap, items);
        return;
      }
      ok := true;
    }

    /** The value between blanks, and the terminator behind it if `strict`; what was built belongs to `body` even when
        only the terminator is missing. */
    method ParseDocument(ghost text: string, strict: bool) returns (ok: bool, body: Body)
      requires Valid() && NulFree(text) && content == text + [NUL] && depth == 0
      modifies this`offset, this`depth, heap
      ensures heap.Valid() && offset <= |content| && heap.live == old(heap.live) + BodyBlocks(body)
      ensures ok ==> Complete(body) && Parse(text, strict) == Ok(ValueOf(body), offset)
      ensures !ok ==> heap.refusals > old(heap.refusals)
                      || Parse(text, strict) == Err(if offset < |content| then offset else |text|)
    {
      hide ParseValue, SkipWhitespace, SkipBom, Terminated, Heap.Valid, BodyBlocks, Complete;
      NoBlocks();
      offset := SkipBom(content);
      SkipBlanks();
      ok, body := ParseValueItem();
      if !ok {
        return ok, InvalidBody;
      }
      if strict {
        SkipBlanks();
        ok := content[offset] == NUL;
      }
    }
  }

  /** `cJSON_ParseWithOpts`: the item and where parsing ended, or no item and the position of the error.  A failed
      parse leaves the live blocks exactly as they were. */
  method ParseWithOpts(text: string, strict: bool, heap: Heap) returns (item: Option<Item>, end: nat)
    requires NulFree(text) && heap.Valid()
    modifies heap
    ensures heap.Valid() && end <= |text|
    ensures item.Some? ==> Complete(item.value.body) && Parse(text, strict) == Ok(ValueOf(item.value.body), end)
                           && heap.live == old(heap.live) + ItemBlocks(item.value)
    ensures item.None? ==> heap.live == old(heap.live)
    ensures item.None? ==> heap.refusals > old(heap.refusals) || Parse(text, strict) == Err(end)
  {
    hide Parse, ParseValue, SkipWhitespace, NulFree, Terminated, Heap.Valid, ItemBlocks, BodyBlocks, Blocks, Complete;
    var parser := new Parser(text, heap);
    item := None;
    var granted, addr := heap.Allocate();
    if !granted {
      return item, 0;
    }
    var ok, body := parser.ParseDocument(text, strict);
    var root := Item(addr, None, body);
    RootBlocks(old(heap.live), root);
    end := if parser.offset < |text| + 1 then parser.offset else |text|;
    if ok {
      item := Some(root);
    } else {
      Delete(heap, [root]);
    }
  }

  lemma RootBlocks(base: multiset<nat>, root: Item)
    requires root.key.None?
    ensures base + multiset{root.addr} + BodyBlocks(root.body) == base + ItemBlocks(root)
    ensures Blocks([root]) == ItemBlocks(root) && base + ItemBlocks(root) - ItemBlocks(root) == base
  {
    hide BodyBlocks, Blocks;
    BlocksOne(root);
  }

  /** One more number character, or the end of them. */
  lemma SpanStep(c: string, o: nat, limit: nat)
    requires o <= |c|
    ensures SpanNumber(c, o, limit)
            == if limit > 0 && o < |c| && IsNumberChar(c[o]) then SpanNumber(c, o + 1, limit - 1) else o
  {
    hide IsNumberChar;
  }

  lemma SliceSnoc(c: string, a: nat, b: nat)
    requires a <= b < |c|
    ensures c[a..b] + [c[b]] == c[a..b + 1]
  {
  }

  /** The three ways in which reading a string can end. */
  lemma StringSteps(c: string, o: nat)
    requires o < |c|
    ensures c[o] != '"' || ScanString(c, o + 1).None? ==> ParseString(c, o) == Err(o + 1)
    ensures c[o] == '"' && ScanString(c, o + 1).Some? ==>
              var end := ScanString(c, o + 1).value;
              ParseString(c, o) == match Decode(c, o + 1, end)
                                   case Bad(at) => Err(at)
                                   case Decoded(t) => Ok(CString(t), end + 1)
  {
    hide ScanString, Decode, CString;
  }

  /** How an array begins: too deep, empty, or with a list of elements. */
  lemma ArraySteps(c: string, o: nat, d: nat)
    requires Terminated(c) && o < |c| && c[o] == '['
    ensures o + 1 < |c| && SkipWhitespace(c, o + 1) > 0
    ensures var o1 := SkipWhitespace(c, o + 1);
            ParseArray(c, o, d) ==
              if d >= NESTING_LIMIT then Err(o)
              else if c[o1] == ']' then Ok(Array([]), o1 + 1)
              else match ParseElements(c, o1 - 1, d + 1)
                   case Err(at) => Err(at)
                   case Ok(items, q) => Ok(Array(items), q)
  {
    hide ParseElements, SkipWhitespace;
    NotLast(c, o);
  }

  lemma ObjectSteps(c: string, o: nat, d: nat)
    requires Terminated(c) && o < |c| && c[o] == '{'
    ensures o + 1 < |c| && SkipWhitespace(c, o + 1) > 0
    ensures var o1 := SkipWhitespace(c, o + 1);
            ParseObject(c, o, d) ==
              if d >= NESTING_LIMIT then Err(o)
              else if c[o1] == '}' then Ok(Object([]), o1 + 1)
              else match ParseMembers(c, o1 - 1, d + 1)
                   case Err(at) => Err(at)
                   case Ok(members, q) => Ok(Object(members), q)
  {
    hide ParseMembers, SkipWhitespace;
    NotLast(c, o);
  }

  lemma ElementsSnoc(items: seq<Item>, longer: seq<Item>)
    requires |longer| == |items| + 1 && longer[..|items|] == items && CompleteElements(items)
    requires CompleteElements(longer)
    ensures Elements(longer) == Elements(items) + [ValueOf(longer[|items|].body)]
  {
    assert forall i :: 0 <= i < |items| ==> longer[i] == longer[..|items|][i];
  }

  /** What parsing further elements comes to, when `front` has been parsed already. */
  lemma ElementStep(c: string, o: nat, d: nat, front: seq<Json>)
    requires Terminated(c) && o + 1 < |c|
    ensures var v := ParseValue(c, SkipWhitespace(c, o + 1), d);
            match v
            case Err(at) => Prepend(front, ParseElements(c, o, d)) == Err(at)
            case Ok(x, q) =>
              var q1 := SkipWhitespace(c, q);
              Prepend(front, ParseElements(c, o, d)) ==
                if c[q1] == ',' then Prepend(front + [x], ParseElements(c, q1, d))
                else if c[q1] == ']' then Ok(front + [x], q1 + 1)
                else Err(q1)
  {
    hide ParseValue, SkipWhitespace;
    var v := ParseValue(c, SkipWhitespace(c, o + 1), d);
    if v.Ok? {
      var q1 := SkipWhitespace(c, v.offset);
      if c[q1] == ',' {
        PrependCons(front, v.value, ParseElements(c, q1, d));
      }
    }
  }

  lemma ElementsComplete(items: seq<Item>, item: Item)
    requires CompleteElements(items) && item.key.None? && Complete(item.body)
    ensures CompleteElements(items + [item])
  {
  }

  lemma CompleteSnoc(items: seq<Item>, item: Item)
    requires CompleteMembers(items) && item.key.Some? && Complete(item.body)
    ensures CompleteMembers(items + [item])
  {
  }

  lemma MembersSnoc(items: seq<Item>, longer: seq<Item>)
    requires |longer| == |items| + 1 && longer[..|items|] == items && CompleteMembers(items)
    requires CompleteMembers(longer)
    ensures Members(longer)
            == Members(items) + [Member(longer[|items|].key.value.text, ValueOf(longer[|items|].body))]
  {
    assert forall i :: 0 <= i < |items| ==> longer[i] == longer[..|items|][i];
  }

  /** What parsing further members comes to, when `front` has been parsed already. */
  lemma MemberStep(c: string, o: nat, d: nat, front: seq<Member>)
    requires Terminated(c) && o + 1 < |c|
    ensures match ParseMember(c, o, d)
            case Err(at) => Prepend(front, ParseMembers(c, o, d)) == Err(at)
            case Ok(x, q) =>
              var q1 := SkipWhitespace(c, q);
              Prepend(front, ParseMembers(c, o, d)) ==
                if c[q1] == ',' then Prepend(front + [x], ParseMembers(c, q1, d))
                else if c[q1] == '}' then Ok(front + [x], q1 + 1)
                else Err(q1)
  {
    hide ParseMember, SkipWhitespace;
    var v := ParseMember(c, o, d);
    if v.Ok? {
      var q1 := SkipWhitespace(c, v.offset);
      if c[q1] == ',' {
        PrependCons(front, v.value, ParseMembers(c, q1, d));
      }
    }
  }

  function Prepend<T>(xs: seq<T>, p: Parsed<seq<T>>): Parsed<seq<T>> {
    match p
    case Ok(ys, q) => Ok(xs + ys, q)
    case Err(_) => p
  }

  lemma PrependNothing<T>(p: Parsed<seq<T>>)
    ensures Prepend([], p) == p
  {
    if p.Ok? {
      assert [] + p.value == p.value;
    }
  }

  lemma PrependCons<T>(xs: seq<T>, x: T, p: Parsed<seq<T>>)
    ensures Prepend(xs, Cons(x, p)) == Prepend(xs + [x], p)
  {
    if p.Ok? {
      assert xs + ([x] + p.value) == xs + [x] + p.value;
    }
  }

  lemma NoBlocks()
    ensures Blocks([]) == multiset{} && BodyBlocks(InvalidBody) == multiset{} && CompleteElements([]) && CompleteMembers([])
  {
  }

  /** Whatever lies behind the terminator of a buffer is not part of its C string. */
  lemma {:induction false} CStringOfBuffer(text: string, buffer: string)
    requires |text| < |buffer| && buffer[..|text|] == text && buffer[|text|] == NUL
    ensures CString(buffer) == CString(text)
  {
    if text != [] {
      assert buffer[0] == text[0];
      CStringOfBuffer(text[1..], buffer[1..]);
    }
  }

  /** What decoding at `p` comes to, by the character there. */
  lemma DecodeStep(c: string, p: nat, end: nat)
    requires p <= end + 1 && end < |c|
    ensures p >= end ==> forall s :: Before(s, Decode(c, p, end)) == Decoded(s)
    ensures p < end && c[p] != '\\' ==> Decode(c, p, end) == Before([c[p]], Decode(c, p + 1, end))
    ensures p < end && c[p] == '\\' && c[p + 1] == 'u' ==>
              match Utf16Literal(c, p, end)
              case None => forall s :: Before(s, Decode(c, p, end)) == Bad(p)
              case Some(l) => Decode(c, p, end) == Before(Utf8Bytes(l.codePoint), Decode(c, p + l.length, end))
    ensures p < end && c[p] == '\\' && c[p + 1] != 'u' ==>
              match Unescape(c[p + 1])
              case None => forall s :: Before(s, Decode(c, p, end)) == Bad(p)
              case Some(ch) => Decode(c, p, end) == Before([ch], Decode(c, p + 2, end))
  {
    assert forall s: string :: s + "" == s;
  }

  /** Whichever way the next step goes, its output fits and the terminator still does. */
  lemma StepFits(c: string, start: nat, p: nat, end: nat)
    requires start <= p < end < |c|
    ensures c[p] != '\\' ==> 0 <= Room(c, start, p + 1, end) <= Room(c, start, p, end) - 1
    ensures 0 <= Room(c, start, p + 2, end) <= Room(c, start, p, end) - 1
    ensures Utf16Literal(c, p, end).Some? ==>
              var l := Utf16Literal(c, p, end).value;
              0 <= Room(c, start, p + l.length, end) <= Room(c, start, p, end) - |Utf8Bytes(l.codePoint)|
  {
    hide Room, Utf8Bytes, Utf16Literal;
    RoomAfterEscape(c, start, p, end);
    RoomIsLeft(c, start, p + 1, end);
    RoomIsLeft(c, start, p + 2, end);
    if Utf16Literal(c, p, end).Some? {
      RoomIsLeft(c, start, p + Utf16Literal(c, p, end).value.length, end);
    }
  }

  lemma RoomAtStart(c: string, start: nat, end: nat)
    requires start <= end < |c|
    ensures Room(c, start, start, end) == end + 1 - start - Skipped(c, start, end)
  {
  }

  function Shifted(n: nat, times: nat): nat {
    if times == 0 then n else Shifted(n, times - 1) / 0x40
  }

  lemma TailByte(cp: nat, k: nat)
    requires cp <= 0x10FFFF && 0 < k < |Utf8Bytes(cp)|
    ensures Utf8Bytes(cp)[k] == Continuation(Shifted(cp, |Utf8Bytes(cp)| - 1 - k))
  {
    assert Shifted(cp, 1) == cp / 0x40;
    assert Shifted(cp, 2) == cp / 0x40 / 0x40 == cp / 0x1000;
  }

  lemma LeadByte(cp: nat)
    requires cp <= 0x10FFFF
    ensures |Utf8Bytes(cp)| == if cp < 0x80 then 1 else if cp < 0x800 then 2 else if cp < 0x10000 then 3 else 4
    ensures var n := |Utf8Bytes(cp)|;
            && 0 <= Shifted(cp, n - 1) < 0x80
            && Utf8Bytes(cp)[0] ==
                 (Shifted(cp, n - 1) + (if n == 1 then 0 else if n == 2 then 0xC0 else if n == 3 then 0xE0 else 0xF0)) as char
  {
    assert Shifted(cp, 1) == cp / 0x40;
    assert Shifted(cp, 2) == cp / 0x40 / 0x40 == cp / 0x1000;
    assert Shifted(cp, 3) == Shifted(cp, 2) / 0x40 == cp / 0x40000;
  }
}
