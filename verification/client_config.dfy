/** The fixed three-peer configuration: the `ClientPorts` table, the peer
    port list `ClientPortService` hands out, and the client-name check of
    `Pa1Application`. */
module ClientConfig {
  import opened JavaLang
  import opened Wrappers

  /** `dto/ClientPorts`. */
  datatype ClientPort = A | B | C
  {
    /** `ordinal()`: the constant's position in declaration order. */
    function Ordinal(): nat
    {
      match this
      case A => 0
      case B => 1
      case C => 2
    }

    /** `getPort()`: the constant's port is the entry of the service's port
        list at the constant's declaration position. */
    function Port(): (p: Int)
      ensures Ordinal() < |CLIENT_PORTS| && p == CLIENT_PORTS[Ordinal()]
      ensures DECLARED[Ordinal()] == this
    {
      match this
      case A => 8080
      case B => 8081
      case C => 8082
    }
  }

  /** `ClientPorts.values()`: the constants in declaration order. */
  const DECLARED: seq<ClientPort> := [A, B, C]

  /** The fixed list `ClientPortService` starts from. */
  const CLIENT_PORTS: seq<Int> := [8080, 8081, 8082]

  /** No two constants share a port. */
  lemma PortsDistinct(x: ClientPort, y: ClientPort)
    ensures x.Port() == y.Port() <==> x == y
  {
  }

  /** Each constant's port is one more than the previous constant's. */
  lemma PortsConsecutive(i: int)
    requires 0 < i < |DECLARED|
    ensures DECLARED[i].Port() == DECLARED[i - 1].Port() + 1
  {
  }

  /** The enum's ports are the service's port list, in the same order. */
  lemma DeclaredPortsAreClientPorts()
    ensures |DECLARED| == |CLIENT_PORTS|
    ensures forall i | 0 <= i < |DECLARED| :: DECLARED[i].Port() == CLIENT_PORTS[i]
  {
  }

  /** The position of the first occurrence of `x` in `xs`. */
  function FirstIndex<T(==)>(xs: seq<T>, x: T): (i: nat)
    requires x in xs
    ensures i < |xs| && xs[i] == x && x !in xs[..i]
  {
    if xs[0] == x then 0
    else
      var i := 1 + FirstIndex(xs[1..], x);
      assert xs[..i] == [xs[0]] + xs[1..][..i - 1];
      i
  }

  /** `List.remove(Object)`: drops the first element equal to `x`, keeping
      the others in order; a list without `x` is returned as it was. */
  function RemoveFirst<T(==)>(xs: seq<T>, x: T): (r: seq<T>)
    ensures x !in xs ==> r == xs
    ensures x in xs ==> r == xs[..FirstIndex(xs, x)] + xs[FirstIndex(xs, x) + 1..]
  {
    if xs == [] then []
    else if xs[0] == x then xs[1..]
    else
      var rest := RemoveFirst(xs[1..], x);
      if x in xs[1..] then
        ConsSplice(xs, FirstIndex(xs, x));
        [xs[0]] + rest
      else
        assert xs == [xs[0]] + xs[1..];
        [xs[0]] + rest
  }

  /** Deleting position `j` of `xs` is keeping the head and deleting
      position `j - 1` of the tail. */
  lemma ConsSplice<T>(xs: seq<T>, j: int)
    requires 1 <= j < |xs|
    ensures [xs[0]] + (xs[1..][..j - 1] + xs[1..][j..]) == xs[..j] + xs[j + 1..]
  {
    assert xs[..j] == [xs[0]] + xs[1..][..j - 1];
    assert xs[1..][j..] == xs[j + 1..];
  }

  /** `ClientPortService.getClientPorts`: a copy of the fixed list without
      the server's own port. `serverPort` is the `server.port` property, an
      `Integer` that may be null, and `remove` compares it with the list by
      `Integer.equals`; removing null removes nothing. */
  function GetClientPorts(serverPort: Option<Int>): (r: seq<Int>)
    ensures serverPort.Some? && serverPort.value in CLIENT_PORTS ==>
              |r| == 2 && serverPort.value !in r
    ensures serverPort.None? || serverPort.value !in CLIENT_PORTS ==> r == CLIENT_PORTS
    ensures forall p :: p in r <==> p in CLIENT_PORTS && serverPort != Some(p)
  {
    match serverPort
    case None => CLIENT_PORTS
    case Some(port) => RemoveFirst(CLIENT_PORTS, port)
  }

  /** The peers each of the three servers talks to, in list order. */
  lemma GetClientPortsTable()
    ensures GetClientPorts(Some(8080)) == [8081, 8082]
    ensures GetClientPorts(Some(8081)) == [8080, 8082]
    ensures GetClientPorts(Some(8082)) == [8080, 8081]
  {
    assert GetClientPorts(Some(8080)) == [8081, 8082] by {
      assert FirstIndex(CLIENT_PORTS, 8080) == 0;
      assert CLIENT_PORTS[..0] + CLIENT_PORTS[1..] == [8081, 8082];
    }
    assert GetClientPorts(Some(8081)) == [8080, 8082] by {
      assert FirstIndex(CLIENT_PORTS, 8081) == 1;
      assert CLIENT_PORTS[..1] + CLIENT_PORTS[2..] == [8080, 8082];
    }
    assert FirstIndex(CLIENT_PORTS, 8082) == 2;
    assert CLIENT_PORTS[..2] + CLIENT_PORTS[3..] == [8080, 8081];
  }

  /** The exception `getClientIndex` throws for an unknown name. */
  datatype IllegalArgument = InvalidClientName

  /** The client name with index `i`. */
  function ClientName(i: int): JString
    requires 0 <= i <= 2
  {
    if i == 0 then Units("ClientA") else if i == 1 then Units("ClientB") else Units("ClientC")
  }

  /** `Pa1Application.getClientIndex`. */
  function GetClientIndex(name: JString): (r: Result<int, IllegalArgument>)
    ensures r.Success? ==> 0 <= r.value <= 2 && ClientName(r.value) == name
    ensures r.Failure? <==> forall i | 0 <= i <= 2 :: name != ClientName(i)
  {
    if name == Units("ClientA") then Success(0)
    else if name == Units("ClientB") then Success(1)
    else if name == Units("ClientC") then Success(2)
    else Failure(InvalidClientName)
  }

  /** Each accepted name maps to its own index, so the mapping is
      injective on the three names. */
  lemma ClientIndexRoundTrip(i: int)
    requires 0 <= i <= 2
    ensures GetClientIndex(ClientName(i)) == Success(i)
  {
    assert Units("ClientA")[6] == 'A' as int;
    assert Units("ClientB")[6] == 'B' as int;
    assert Units("ClientC")[6] == 'C' as int;
  }

  lemma ClientIndexInjective(a: JString, b: JString)
    ensures GetClientIndex(a).Success? && GetClientIndex(a) == GetClientIndex(b) ==> a == b
  {
  }
}
