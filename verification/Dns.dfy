/** DNS names in multicast packets: sections 3.1 and 4.1.4 of RFC 1035. */
module Dns {
  import opened Words

  const DOT: uint8 := 0x2e
  const MAXIMUM_DEPTH: nat := 16

  // Printing.

  function Split(name: seq<uint8>): (labels: seq<seq<uint8>>)
    ensures labels != []
  {
    if name == [] then [[]]
    else
      var rest := Split(name[1..]);
      if name[0] == DOT then [[]] + rest else [[name[0]] + rest[0]] + rest[1..]
  }

  function Join(labels: seq<seq<uint8>>): seq<uint8> {
    if labels == [] then [] else if |labels| == 1 then labels[0] else labels[0] + [DOT] + Join(labels[1..])
  }

  predicate Label(l: seq<uint8>) {
    1 <= |l| <= 63 && DOT !in l
  }

  predicate Labels(labels: seq<seq<uint8>>) {
    forall i | 0 <= i < |labels| :: Label(labels[i])
  }

  /** Labels as length-prefixed strings, without a terminator; empty ones are skipped, lengths are one byte. */
  function Encoded(labels: seq<seq<uint8>>): seq<uint8> {
    if labels == [] then []
    else (if labels[0] == [] then [] else [|labels[0]| % 0x100] + labels[0]) + Encoded(labels[1..])
  }

  lemma {:induction false} EncodedSnoc(labels: seq<seq<uint8>>, l: seq<uint8>)
    ensures Encoded(labels + [l]) == Encoded(labels) + if l == [] then [] else [|l| % 0x100] + l
    decreases |labels|
  {
    if labels == [] {
      assert Encoded([l][1..]) == [];
    } else {
      assert (labels + [l])[1..] == labels[1..] + [l];
      EncodedSnoc(labels[1..], l);
    }
  }

  /** A packet under construction. */
  class PacketWriter {
    var data: seq<uint8>

    constructor ()
      ensures data == []
    {
      data := [];
    }

    method AppendName(name: seq<uint8>)
      modifies this
      ensures data == old(data) + Encoded(Split(name)) + [0]
    {
      var labels := Split(name);
      for i := 0 to |labels|
        invariant data == old(data) + Encoded(labels[..i])
      {
        EncodedSnoc(labels[..i], labels[i]);
        assert labels[..i + 1] == labels[..i] + [labels[i]];
        if labels[i] == [] { continue; }
        data := data + [|labels[i]| % 0x100];
        data := data + labels[i];
      }
      assert labels[..|labels|] == labels;
      data := data + [0];
    }
  }

  lemma {:induction false} SplitLabel(l: seq<uint8>, rest: seq<uint8>)
    requires DOT !in l
    ensures Split(l) == [l]
    ensures Split(l + [DOT] + rest) == [l] + Split(rest)
    decreases |l|
  {
    if l == [] {
      assert [] + [DOT] + rest == [DOT] + rest;
      assert ([DOT] + rest)[1..] == rest;
    } else {
      SplitLabel(l[1..], rest);
      assert (l + [DOT] + rest)[1..] == l[1..] + [DOT] + rest;
      assert [l[0]] + l[1..] == l;
    }
  }

  /** Splitting what was joined gives the labels back. */
  lemma {:induction false} SplitJoin(labels: seq<seq<uint8>>)
    requires labels != [] && forall i | 0 <= i < |labels| :: DOT !in labels[i]
    ensures Split(Join(labels)) == labels
    decreases |labels|
  {
    if |labels| == 1 {
      SplitLabel(labels[0], []);
    } else {
      SplitJoin(labels[1..]);
      SplitLabel(labels[0], Join(labels[1..]));
    }
  }

  // Parsing.

  datatype Parsed = Refused | Name(next: nat, name: seq<uint8>)

  function Dotted(name: seq<uint8>, part: seq<uint8>): seq<uint8> {
    if name != [] && part != [] then name + [DOT] + part else name + part
  }

  /** The packet offset that a two-byte compression pointer names. */
  function Pointer(high: uint8, low: uint8): nat
    requires high >= 0xc0
  {
    (high as int - 0xc0) * 0x100 + low as int
  }

  /** The name at `cursor`, appended to `name`; at most MAXIMUM_DEPTH pointers are followed. */
  function Read(packet: seq<uint8>, cursor: nat, name: seq<uint8>, depth: nat): Parsed
    decreases MAXIMUM_DEPTH + 1 - depth, |packet| - cursor
  {
    if depth > MAXIMUM_DEPTH || cursor >= |packet| then Refused
    else
      var length := packet[cursor];
      if length == 0 then Name(cursor + 1, name)
      else if length >= 0xc0 then
        if cursor + 1 >= |packet| then Refused
        else
          var target := Read(packet, Pointer(length, packet[cursor + 1]), [], depth + 1);
          if target.Refused? then Refused else Name(cursor + 2, Dotted(name, target.name))
      else if length >= 0x40 || cursor + 1 + length > |packet| then Refused
      else
        var part := packet[cursor + 1..cursor + 1 + length];
        Read(packet, cursor + 1 + length, (if name == [] then [] else name + [DOT]) + part, depth)
  }

  method ReadName(packet: seq<uint8>, offset: nat, before: seq<uint8>, depth: nat)
    returns (ok: bool, next: nat, name: seq<uint8>)
    ensures Read(packet, offset, before, depth) == if ok then Name(next, name) else Refused
    decreases MAXIMUM_DEPTH + 1 - depth
  {
    next, name := offset, before;
    if depth > MAXIMUM_DEPTH { return false, offset, before; }
    var cursor := offset;
    while cursor < |packet|
      invariant Read(packet, cursor, name, depth) == Read(packet, offset, before, depth)
      decreases |packet| - cursor
    {
      var length := packet[cursor];
      cursor := cursor + 1;
      if length == 0 {
        return true, cursor, name;
      }
      if length >= 0xc0 {
        if cursor >= |packet| { return false, next, name; }
        var pointer := Pointer(length, packet[cursor]);
        cursor := cursor + 1;
        next := cursor;
        var found, _, suffix := ReadName(packet, pointer, [], depth + 1);
        if !found { return false, next, name; }
        if name != [] && suffix != [] { name := name + [DOT]; }
        name := name + suffix;
        return true, next, name;
      }
      if length >= 0x40 || cursor + length > |packet| { return false, next, name; }
      if name != [] { name := name + [DOT]; }
      name := name + packet[cursor..cursor + length];
      cursor := cursor + length;
    }
    return false, next, name;
  }

  /** No whole label starts here: the terminator, a pointer, or something a reader refuses. */
  predicate EndsName(packet: seq<uint8>, cursor: nat)
    requires cursor < |packet|
  {
    packet[cursor] == 0 || packet[cursor] >= 0x40 || cursor + 1 + packet[cursor] > |packet|
  }

  /** A successful read moves forward and stays inside the packet. */
  lemma {:induction false} ReadAdvances(packet: seq<uint8>, cursor: nat, name: seq<uint8>, depth: nat)
    ensures match Read(packet, cursor, name, depth) case Refused => true case Name(next, _) => cursor < next <= |packet|
    decreases |packet| - cursor
  {
    if depth > MAXIMUM_DEPTH || cursor >= |packet| || EndsName(packet, cursor) {
    } else {
      var length := packet[cursor];
      var part := packet[cursor + 1..cursor + 1 + length];
      ReadAdvances(packet, cursor + 1 + length, (if name == [] then [] else name + [DOT]) + part, depth);
    }
  }

  /** Where the text stands in a packet. */
  predicate At(packet: seq<uint8>, o: nat, text: seq<uint8>) {
    o + |text| <= |packet| && packet[o..o + |text|] == text
  }

  lemma AtSplit(packet: seq<uint8>, o: nat, a: seq<uint8>, b: seq<uint8>)
    requires At(packet, o, a + b)
    ensures At(packet, o, a) && At(packet, o + |a|, b)
  {
    assert packet[o..o + |a|] == packet[o..o + |a + b|][..|a|];
    assert packet[o + |a|..o + |a| + |b|] == packet[o..o + |a + b|][|a|..];
  }

  function After(name: seq<uint8>, labels: seq<seq<uint8>>): seq<uint8>
    decreases |labels|
  {
    if labels == [] then name
    else After((if name == [] then [] else name + [DOT]) + labels[0], labels[1..])
  }

  lemma ReadLabel(packet: seq<uint8>, o: nat, l: seq<uint8>, name: seq<uint8>, depth: nat)
    requires Label(l) && At(packet, o, [|l|] + l) && depth <= MAXIMUM_DEPTH
    ensures Read(packet, o, name, depth) ==
      Read(packet, o + 1 + |l|, (if name == [] then [] else name + [DOT]) + l, depth)
  {
    AtSplit(packet, o, [|l|], l);
    assert packet[o] == packet[o..o + 1][0] == |l|;
  }

  /** Reading a run of labels is reading what follows it with the labels appended. */
  lemma {:induction false} ReadLabels(packet: seq<uint8>, o: nat, labels: seq<seq<uint8>>, name: seq<uint8>, depth: nat)
    requires Labels(labels) && At(packet, o, Encoded(labels)) && depth <= MAXIMUM_DEPTH
    ensures Read(packet, o, name, depth) == Read(packet, o + |Encoded(labels)|, After(name, labels), depth)
    decreases |labels|
  {
    hide At, Read;
    if labels == [] {
    } else {
      var l := labels[0];
      assert Label(l);
      AtSplit(packet, o, [|l|] + l, Encoded(labels[1..]));
      ReadLabel(packet, o, l, name, depth);
      ReadLabels(packet, o + 1 + |l|, labels[1..], (if name == [] then [] else name + [DOT]) + l, depth);
    }
  }

  lemma {:induction false} AfterIsJoin(name: seq<uint8>, labels: seq<seq<uint8>>)
    requires Labels(labels)
    ensures After(name, labels) ==
      if labels == [] then name else if name == [] then Join(labels) else name + [DOT] + Join(labels)
    decreases |labels|
  {
    if labels == [] {
    } else {
      assert Label(labels[0]);
      AfterIsJoin((if name == [] then [] else name + [DOT]) + labels[0], labels[1..]);
      if |labels| == 1 { assert Join(labels) == labels[0]; }
    }
  }

  lemma NothingPrinted()
    ensures Split(Join([])) == [[]] && Encoded([[]]) == [] && [] + [0] == [0 as uint8]
  {
    assert Encoded([[]]) == Encoded([[]][1..]);
  }

  lemma ReadEnd(packet: seq<uint8>, e: nat, name: seq<uint8>, depth: nat)
    requires At(packet, e, [0]) && depth <= MAXIMUM_DEPTH
    ensures Read(packet, e, name, depth) == Name(e + 1, name)
  {
    assert packet[e] == packet[e..e + 1][0];
  }

  lemma ReadPointer(packet: seq<uint8>, e: nat, name: seq<uint8>, high: uint8, low: uint8, depth: nat)
    requires At(packet, e, [high, low]) && 0xc0 <= high && depth <= MAXIMUM_DEPTH
    ensures var target := Read(packet, Pointer(high, low), [], depth + 1);
      Read(packet, e, name, depth) == if target.Refused? then Refused else Name(e + 2, Dotted(name, target.name))
  {
    hide Pointer;
    assert packet[e] == packet[e..e + 2][0] && packet[e + 1] == packet[e..e + 2][1];
  }

  /** Reading undoes printing: a printed name anywhere in a packet is read back, up to just past its terminator. */
  lemma PrintedNameReadsBack(packet: seq<uint8>, o: nat, labels: seq<seq<uint8>>, depth: nat)
    requires Labels(labels) && depth <= MAXIMUM_DEPTH && At(packet, o, Encoded(Split(Join(labels))) + [0])
    ensures Read(packet, o, [], depth) == Name(o + |Encoded(Split(Join(labels)))| + 1, Join(labels))
  {
    hide Read, Encoded, At;
    if labels == [] {
      NothingPrinted();
      ReadEnd(packet, o, [], depth);
    } else {
      forall i | 0 <= i < |labels| ensures DOT !in labels[i] { assert Label(labels[i]); }
      SplitJoin(labels);
      AtSplit(packet, o, Encoded(labels), [0]);
      ReadLabels(packet, o, labels, [], depth);
      AfterIsJoin([], labels);
      ReadEnd(packet, o + |Encoded(labels)|, Join(labels), depth);
    }
  }

  /** A label run that ends in a pointer reads as the run joined to the target's name, up to just past the pointer. */
  lemma PointerReadsTarget(packet: seq<uint8>, o: nat, labels: seq<seq<uint8>>, high: uint8, low: uint8, depth: nat)
    requires Labels(labels) && depth <= MAXIMUM_DEPTH && 0xc0 <= high
    requires At(packet, o, Encoded(labels) + [high, low])
    ensures var target := Read(packet, Pointer(high, low), [], depth + 1);
      Read(packet, o, [], depth) ==
        if target.Refused? then Refused else Name(o + |Encoded(labels)| + 2, Dotted(Join(labels), target.name))
  {
    hide Read, Encoded, At, Pointer;
    AtSplit(packet, o, Encoded(labels), [high, low]);
    ReadLabels(packet, o, labels, [], depth);
    AfterIsJoin([], labels);
    ReadPointer(packet, o + |Encoded(labels)|, Join(labels), high, low, depth);
  }

  /** The two bytes of a pointer to an offset: two set bits and the fourteen bits of the offset. */
  lemma PointerOfOffset(o: nat)
    requires o < 0x4000
    ensures Pointer(0xc0 + o / 0x100, o % 0x100) == o
  {
  }

  lemma {:induction false} JoinConcat(a: seq<seq<uint8>>, b: seq<seq<uint8>>)
    requires a != [] && b != []
    ensures Join(a + b) == Join(a) + [DOT] + Join(b)
    decreases |a|
  {
    if |a| == 1 {
      assert (a + b)[1..] == b;
    } else {
      assert (a + b)[1..] == a[1..] + b;
      JoinConcat(a[1..], b);
    }
  }

  lemma JoinNonEmpty(labels: seq<seq<uint8>>)
    requires Labels(labels) && labels != []
    ensures Join(labels) != []
  {
    assert Label(labels[0]);
  }

  /**
   * A compressed name reads as the whole: labels that end in a pointer to a printed name are read as all the labels
   * together, up to just past the pointer.
   */
  lemma CompressedNameReadsBack(packet: seq<uint8>, o: nat, labels: seq<seq<uint8>>, t: nat, rest: seq<seq<uint8>>)
    requires Labels(labels) && Labels(rest) && labels != [] && rest != [] && t < 0x4000
    requires At(packet, o, Encoded(labels) + [0xc0 + t / 0x100, t % 0x100])
    requires At(packet, t, Encoded(Split(Join(rest))) + [0])
    ensures Read(packet, o, [], 0) == Name(o + |Encoded(labels)| + 2, Join(labels + rest))
  {
    hide Read, Encoded, At, Pointer, Split;
    PointerOfOffset(t);
    PrintedNameReadsBack(packet, t, rest, 1);
    PointerReadsTarget(packet, o, labels, 0xc0 + t / 0x100, t % 0x100, 0);
    JoinConcat(labels, rest);
    JoinNonEmpty(labels);
    JoinNonEmpty(rest);
  }

  /** The pointer that ends the label run at `cursor`, if one does. */
  function PointerTarget(packet: seq<uint8>, cursor: nat): Option<nat>
    decreases |packet| - cursor
  {
    if cursor + 1 >= |packet| || packet[cursor] == 0 then None
    else if packet[cursor] >= 0xc0 then Some(Pointer(packet[cursor], packet[cursor + 1]))
    else if packet[cursor] >= 0x40 then None
    else PointerTarget(packet, cursor + 1 + packet[cursor])
  }

  lemma {:induction false} PointerDecides(packet: seq<uint8>, cursor: nat, name: seq<uint8>, depth: nat)
    requires PointerTarget(packet, cursor).Some?
    requires Read(packet, PointerTarget(packet, cursor).value, [], depth + 1).Refused?
    ensures Read(packet, cursor, name, depth).Refused?
    decreases |packet| - cursor
  {
    if depth > MAXIMUM_DEPTH || EndsName(packet, cursor) {
    } else {
      var length := packet[cursor];
      var part := packet[cursor + 1..cursor + 1 + length];
      PointerDecides(packet, cursor + 1 + length, (if name == [] then [] else name + [DOT]) + part, depth);
    }
  }

  /** Names whose pointers lead round and round are refused, however long the cycle is. */
  lemma {:induction false} CyclesRefused(packet: seq<uint8>, cycle: set<nat>, o: nat, name: seq<uint8>, depth: nat)
    requires o in cycle
    requires forall p | p in cycle :: PointerTarget(packet, p).Some? && PointerTarget(packet, p).value in cycle
    ensures Read(packet, o, name, depth).Refused?
    decreases MAXIMUM_DEPTH + 1 - depth
  {
    if depth > MAXIMUM_DEPTH {
    } else {
      CyclesRefused(packet, cycle, PointerTarget(packet, o).value, [], depth + 1);
      PointerDecides(packet, o, name, depth);
    }
  }
}
