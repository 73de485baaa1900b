/**
The bytes and the serlen of each message, written out field by field.  Writer and reader
share the shapes, so only these say in which order and width the fields are.
*/
module SerdesLayout {
  import opened Bytes
  import opened Numbers
  import opened Serdes

  predicate IsText(v: Value) {
    v.Null? || v.Str?
  }

  /** A string of at most 65535 bytes behind its 16-bit length. */
  function TextBytes(v: Value): (b: seq<Byte>)
    requires IsText(v)
    ensures |b| == 2 + |Stored(v)|
  {
    Encode(|Stored(v)|, 2) + Stored(v)
  }

  ghost predicate AllHave(item: Shape, vs: seq<Value>) {
    forall i :: 0 <= i < |vs| ==> HasShape(item, vs[i])
  }

  /** The items, one after another, behind their 16-bit number. */
  ghost function ListBytes(item: Shape, vs: seq<Value>): (b: seq<Byte>)
    requires AllHave(item, vs)
  {
    Encode(|vs|, 2) + SerializeAll(item, vs)
  }

  // ---------------------------------------------------------------- names and policies

  lemma PolicyParmBytes(name: Value, value: Value)
    requires IsText(name) && IsText(value)
    ensures var v := Both(name, value);
            && HasShape(POLICY_PARM, v) && Serialize(POLICY_PARM, v) == TextBytes(name) + TextBytes(value)
            && SerLen(POLICY_PARM, v) == 2 * 2 + |Stored(name)| + |Stored(value)|
  {
  }

  lemma ThreeTexts(a: Value, b: Value, c: Value)
    requires IsText(a) && IsText(b) && IsText(c)
    ensures var shape, v := Pair(Text, Pair(Text, Text)), Both(a, Both(b, c));
            && HasShape(shape, v) && Serialize(shape, v) == TextBytes(a) + (TextBytes(b) + TextBytes(c))
            && SerLen(shape, v) == 3 * 2 + |Stored(a)| + |Stored(b)| + |Stored(c)|
  {
    PolicyParmBytes(b, c);
  }

  /** Process name and instance, entity name and instance. */
  lemma NameBytes(process: Value, processInstance: Value, entity: Value, entityInstance: Value)
    requires IsText(process) && IsText(processInstance) && IsText(entity) && IsText(entityInstance)
    ensures var v := Both(process, Both(processInstance, Both(entity, entityInstance)));
            && HasShape(NAME, v)
            && Serialize(NAME, v) == TextBytes(process) + (TextBytes(processInstance) +
                                     (TextBytes(entity) + TextBytes(entityInstance)))
            && SerLen(NAME, v) == 4 * 2 + |Stored(process)| + |Stored(processInstance)|
                                  + |Stored(entity)| + |Stored(entityInstance)|
  {
    ThreeTexts(processInstance, entity, entityInstance);
  }

  /** Name, version, parameters; a parameter is a name and a value. */
  lemma PolicyBytes(name: Value, version: Value, parms: seq<Value>)
    requires IsText(name) && IsText(version) && AllHave(POLICY_PARM, parms)
    ensures var v := Both(name, Both(version, Items(parms)));
            && HasShape(POLICY, v)
            && Serialize(POLICY, v) == TextBytes(name) + (TextBytes(version) + ListBytes(POLICY_PARM, parms))
            && SerLen(POLICY, v) == 3 * 2 + |Stored(name)| + |Stored(version)| + SerLenAll(POLICY_PARM, parms)
  {
  }

  // ---------------------------------------------------------------- RIB objects

  /** Eight bytes of instance, then name, class and displayable value. */
  lemma RibObjectBytes(inst: nat, name: Value, clazz: Value, disp: Value)
    requires IsText(name) && IsText(clazz) && IsText(disp)
    ensures var v := Both(Num(inst), Both(name, Both(clazz, disp)));
            && HasShape(RIB_OBJECT_DATA, v) && |Encode(inst, 8)| == 8
            && Serialize(RIB_OBJECT_DATA, v) ==
               Encode(inst, 8) + (TextBytes(name) + (TextBytes(clazz) + TextBytes(disp)))
            && SerLen(RIB_OBJECT_DATA, v) == 3 * 2 + |Stored(name)| + |Stored(clazz)| + |Stored(disp)| + 8
  {
    ThreeTexts(name, clazz, disp);
  }

  // ---------------------------------------------------------------- forwarding entries

  lemma {:induction false} NumbersLength(width: nat, vs: seq<Value>)
    requires AllHave(Number(width), vs)
    ensures SerLenAll(Number(width), vs) == width * |vs|
  {
    if vs != [] {
      NumbersLength(width, vs[1..]);
    }
  }

  /** A list of port ids takes four bytes each. */
  lemma PortIdsLength(ports: seq<Value>)
    requires AllHave(Number(4), ports)
    ensures HasShape(PORT_ID_ALTLIST, Items(ports)) && SerLen(PORT_ID_ALTLIST, Items(ports)) == 2 + 4 * |ports|
  {
    NumbersLength(4, ports);
  }

  /** Four bytes of address, two of QoS id, four of cost, then the alternatives. */
  lemma PffEntryBytes(address: nat, qosId: nat, cost: nat, alternatives: seq<Value>)
    requires AllHave(PORT_ID_ALTLIST, alternatives)
    ensures var v := Both(Num(address), Both(Num(qosId), Both(Num(cost), Items(alternatives))));
            && HasShape(MOD_PFF_ENTRY, v)
            && Serialize(MOD_PFF_ENTRY, v) == Encode(address, 4) + (Encode(qosId, 2) +
                                              (Encode(cost, 4) + ListBytes(PORT_ID_ALTLIST, alternatives)))
            && SerLen(MOD_PFF_ENTRY, v) == 4 + 2 + 4 + 2 + SerLenAll(PORT_ID_ALTLIST, alternatives)
  {
  }

  // ---------------------------------------------------------------- neighbours

  datatype NeighborNumbers = NeighborNumbers(
    address: nat, oldAddress: nat, averageRtt: nat, enrollAttempts: nat, enrolled: nat,
    underPort: nat, internPort: nat, lastHeard: nat)

  function NumbersOf(n: NeighborNumbers): Value {
    Both(Num(n.address), Both(Num(n.oldAddress), Both(Num(n.averageRtt), Both(Num(n.enrollAttempts),
    Both(Num(n.enrolled), Both(Num(n.underPort), Both(Num(n.internPort), Num(n.lastHeard))))))))
  }

  /** 29 bytes: four numbers of four bytes, the enrolled flag in one, three more of four. */
  lemma NeighborNumberBytes(n: NeighborNumbers)
    ensures var v := NumbersOf(n);
            && HasShape(NEIGHBOR_NUMBERS, v) && SerLen(NEIGHBOR_NUMBERS, v) == 29
            && Serialize(NEIGHBOR_NUMBERS, v) ==
               Encode(n.address, 4) + (Encode(n.oldAddress, 4) + (Encode(n.averageRtt, 4) +
               (Encode(n.enrollAttempts, 4) + (Encode(n.enrolled, 1) + (Encode(n.underPort, 4) +
               (Encode(n.internPort, 4) + Encode(n.lastHeard, 4)))))))
  {
  }

  /** The numbers, the names of the neighbour and of the DIF between, the supporting DIFs. */
  lemma NeighborBytes(n: NeighborNumbers, name: Value, difName: Value, difs: seq<Value>)
    requires HasShape(NAME, name) && HasShape(NAME, difName) && AllHave(NAME, difs)
    ensures var v := Both(NumbersOf(n), Both(name, Both(difName, Items(difs))));
            && HasShape(NEIGHBOR_NUMBERS, NumbersOf(n)) && HasShape(IPCP_NEIGHBOR, v)
            && Serialize(IPCP_NEIGHBOR, v) ==
               Serialize(NEIGHBOR_NUMBERS, NumbersOf(n)) +
               (Serialize(NAME, name) + (Serialize(NAME, difName) + ListBytes(NAME, difs)))
            && SerLen(IPCP_NEIGHBOR, v) == 4 * 4 + 1 + 3 * 4 + 2 + SerLen(NAME, name) + SerLen(NAME, difName)
                                           + SerLenAll(NAME, difs)
  {
    NeighborNumberBytes(n);
  }

  // ---------------------------------------------------------------- media reports

  /** Four bytes of signal strength, then the address. */
  lemma BaseStationBytes(strength: nat, address: Value)
    requires IsText(address)
    ensures var v := Both(Num(strength), address);
            && HasShape(BS_INFO_ENTRY, v) && Serialize(BS_INFO_ENTRY, v) == Encode(strength, 4) + TextBytes(address)
            && SerLen(BS_INFO_ENTRY, v) == 4 + 2 + |Stored(address)|
  {
  }

  /** DIF name, security policies, base stations. */
  lemma MediaDifBytes(name: Value, policies: Value, stations: seq<Value>)
    requires IsText(name) && IsText(policies) && AllHave(BS_INFO_ENTRY, stations)
    ensures var v := Both(name, Both(policies, Items(stations)));
            && HasShape(MEDIA_DIF_INFO, v)
            && Serialize(MEDIA_DIF_INFO, v) ==
               TextBytes(name) + (TextBytes(policies) + ListBytes(BS_INFO_ENTRY, stations))
            && SerLen(MEDIA_DIF_INFO, v) == 3 * 2 + |Stored(name)| + |Stored(policies)|
                                            + SerLenAll(BS_INFO_ENTRY, stations)
  {
  }

  /** Two bytes of process id, DIF name, base station address, and per DIF its name and entry. */
  lemma MediaReportBytes(id: nat, difName: Value, station: Value, difs: seq<Value>)
    requires IsText(difName) && IsText(station) && AllHave(Pair(Text, MEDIA_DIF_INFO), difs)
    ensures var v := Both(Num(id), Both(difName, Both(station, Items(difs))));
            && HasShape(MEDIA_REPORT, v)
            && Serialize(MEDIA_REPORT, v) == Encode(id, 2) + (TextBytes(difName) + (TextBytes(station) +
                                             ListBytes(Pair(Text, MEDIA_DIF_INFO), difs)))
            && SerLen(MEDIA_REPORT, v) == 3 * 2 + |Stored(difName)| + |Stored(station)| + 2
                                          + SerLenAll(Pair(Text, MEDIA_DIF_INFO), difs)
  {
  }
}
