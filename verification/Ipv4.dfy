/** Dotted-decimal IPv4 addresses. */
module Ipv4 {
  import opened Basics
  import opened Sequences
  import opened Decimal

  datatype Octets = Octets(a: nat, b: nat, c: nat, d: nat)

  /** string_view::find: the first index of `c` from `from` on, or -1. */
  function Find(s: string, c: char, from: nat): (k: int)
    ensures k == -1 || from <= k < |s|
    ensures k == -1 ==> forall i | from <= i < |s| :: s[i] != c
    ensures k >= 0 ==> s[k] == c && forall i | from <= i < k :: s[i] != c
    decreases |s| - from
  {
    if from >= |s| then -1
    else if s[from] == c then from
    else Find(s, c, from + 1)
  }

  /** One field: a nonempty decimal of at most 255. */
  predicate IsOctet(field: string) {
    IsDecimal(field) && Value(field) <= 255
  }

  /** An address is four such fields with single dots between them. */
  function Ipv4Octets(address: string): Option<Octets> {
    var fields := Split(address, '.');
    if |fields| == 4 && IsOctet(fields[0]) && IsOctet(fields[1]) && IsOctet(fields[2]) && IsOctet(fields[3]) then
      Some(Octets(Value(fields[0]), Value(fields[1]), Value(fields[2]), Value(fields[3])))
    else None
  }

  /** The next field of `s` from `position` on ends at the next dot, or at the end of `s`. */
  lemma {:induction false} NextField(s: string, position: nat)
    requires position <= |s|
    ensures var k := Find(s, '.', position);
            if k == -1 then Split(s[position..], '.') == [s[position..]]
            else Split(s[position..], '.') == [s[position..k]] + Split(s[k + 1..], '.')
  {
    var k := Find(s, '.', position);
    if k == -1 {
      SplitFirst(s[position..], [], '.');
    } else {
      SplitFirst(s[position..k], s[k + 1..], '.');
      assert s[position..] == s[position..k] + ['.'] + s[k + 1..];
    }
  }

  /** parse_ipv4: one field per round, the last one without a following dot. */
  method ParseIpv4(address: string) returns (result: Option<Octets>)
    ensures result == Ipv4Octets(address)
  {
    hide Find, Split, Value;
    var octets: seq<nat> := [];
    var position: nat := 0;
    ghost var fields := Split(address, '.');
    assert address[0..] == address;
    for index := 0 to 4
      invariant |octets| == index <= |fields|
      invariant position <= |address|
      invariant index < 4 ==> fields[index..] == Split(address[position..], '.')
      invariant index == 4 ==> |fields| == 4 && position == |address|
      invariant forall i | 0 <= i < index :: IsOctet(fields[i]) && octets[i] == Value(fields[i])
    {
      var separator := Find(address, '.', position);
      NextField(address, position);
      if (index + 1 == 4) != (separator == -1) {
        assert |fields| == index + |Split(address[position..], '.')|;
        return None;
      }
      var part := if separator == -1 then address[position..] else address[position..separator];
      assert part == fields[index..][0] == fields[index];
      var parsed := ParseDecimal(part, U32_MODULUS);
      if parsed == None || parsed.value > 255 {
        assert !IsOctet(fields[index]);
        return None;
      }
      octets := octets + [parsed.value];
      if index + 1 == 4 {
        position := |address|;
      } else {
        assert fields[index + 1..] == fields[index..][1..];
        position := separator + 1;
      }
    }
    return if position == |address| then Some(Octets(octets[0], octets[1], octets[2], octets[3])) else None;
  }

  /** The four texts are decimals of at most 255 with the values of `o`. */
  ghost predicate Denote(f0: string, f1: string, f2: string, f3: string, o: Octets) {
    && IsDecimal(f0) && IsDecimal(f1) && IsDecimal(f2) && IsDecimal(f3)
    && o == Octets(Value(f0), Value(f1), Value(f2), Value(f3))
    && o.a <= 255 && o.b <= 255 && o.c <= 255 && o.d <= 255
  }

  /** Exactness: the accepted strings are the four-field ones, with the values of the fields. */
  lemma {:induction false} Ipv4Exact(address: string, o: Octets)
    ensures Ipv4Octets(address) == Some(o) <==>
            exists f0, f1, f2, f3 ::
              address == f0 + "." + f1 + "." + f2 + "." + f3 && Denote(f0, f1, f2, f3, o)
  {
    hide Ipv4Octets, Value;
    if Ipv4Octets(address) == Some(o) {
      var f0, f1, f2, f3 := AcceptedFields(address, o);
    }
    forall f0, f1, f2, f3 | address == f0 + "." + f1 + "." + f2 + "." + f3 && Denote(f0, f1, f2, f3, o)
      ensures Ipv4Octets(address) == Some(o)
    {
      FieldsAccepted(f0, f1, f2, f3);
    }
  }

  lemma {:induction false} AcceptedFields(address: string, o: Octets)
    returns (f0: string, f1: string, f2: string, f3: string)
    requires Ipv4Octets(address) == Some(o)
    ensures address == f0 + "." + f1 + "." + f2 + "." + f3
    ensures IsOctet(f0) && IsOctet(f1) && IsOctet(f2) && IsOctet(f3)
    ensures o == Octets(Value(f0), Value(f1), Value(f2), Value(f3))
  {
    hide Split, Value, Join;
    var fields := Split(address, '.');
    JoinSplit(address, '.');
    JoinFour(fields);
    f0, f1, f2, f3 := fields[0], fields[1], fields[2], fields[3];
  }

  lemma {:induction false} FieldsAccepted(f0: string, f1: string, f2: string, f3: string)
    requires IsOctet(f0) && IsOctet(f1) && IsOctet(f2) && IsOctet(f3)
    ensures Ipv4Octets(f0 + "." + f1 + "." + f2 + "." + f3) == Some(Octets(Value(f0), Value(f1), Value(f2), Value(f3)))
  {
    hide Split, Value;
    FourFields(f0, f1, f2, f3);
  }

  lemma {:induction false} JoinFour(fields: seq<string>)
    requires |fields| == 4
    ensures Join(fields, '.') == fields[0] + "." + fields[1] + "." + fields[2] + "." + fields[3]
  {
    assert fields[1..][1..] == fields[2..] && fields[2..][1..] == fields[3..];
    assert Join(fields[3..], '.') == fields[3];
    assert Join(fields[2..], '.') == fields[2] + "." + fields[3];
    assert Join(fields[1..], '.') == fields[1] + "." + (fields[2] + "." + fields[3]);
  }

  lemma {:induction false} FourFields(f0: string, f1: string, f2: string, f3: string)
    requires IsDecimal(f0) && IsDecimal(f1) && IsDecimal(f2) && IsDecimal(f3)
    ensures Split(f0 + "." + f1 + "." + f2 + "." + f3, '.') == [f0, f1, f2, f3]
  {
    var fields := [f0, f1, f2, f3];
    NoDot(f0);
    NoDot(f1);
    NoDot(f2);
    NoDot(f3);
    JoinFour(fields);
    SplitJoin(fields, '.');
  }

  lemma {:induction false} NoDot(s: string)
    requires IsDecimal(s)
    ensures '.' !in s && ' ' !in s
  {
  }

  function PrintIpv4(o: Octets): string {
    Print(o.a) + "." + Print(o.b) + "." + Print(o.c) + "." + Print(o.d)
  }

  /** The parser inverts the canonical printer on every address. */
  lemma {:induction false} Ipv4RoundTrip(o: Octets)
    requires o.a <= 255 && o.b <= 255 && o.c <= 255 && o.d <= 255
    ensures Ipv4Octets(PrintIpv4(o)) == Some(o)
  {
    PrintValue(o.a);
    PrintValue(o.b);
    PrintValue(o.c);
    PrintValue(o.d);
    FourFields(Print(o.a), Print(o.b), Print(o.c), Print(o.d));
  }
}
