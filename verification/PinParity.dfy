/** The crosscheck of a logical netlist against the native one: counters of (component, pad, net)
    triples, compared as multisets. */
module PinParity {
  import opened Wrappers
  import opened Sequences

  /** `pads` are the pad ids of the footprint, empty when there is none; `pinMap` is pad to pin. */
  datatype Component = Component(ref: string, kind: string, pads: seq<string>, pinMap: map<string, string>)

  datatype Node = Node(componentRef: string, pin: string)

  datatype Net = Net(name: string, nodes: seq<Node>)

  /** Components by id in dictionary order, and the nets in the order of their ids. */
  datatype Design = Design(components: seq<(string, Component)>, nets: seq<Net>)

  datatype NativeNode = NativeNode(ref: string, pad: string)

  datatype NativeNet = NativeNet(name: string, nodes: seq<NativeNode>)

  datatype Triple = Triple(ref: string, pad: string, net: string)

  datatype Reason =
    | MissingGeometry(ref: string)
    | RepeatedPad(ref: string)
    | UnknownComponent(ref: string)
    | MissingPinMap(ref: string, pin: string)
    | UnmappedPin(ref: string, pin: string)
    | AbsentPad(ref: string, pin: string, pad: string)

  datatype Outcome = Outcome(
    reasons: seq<Reason>, extra: multiset<Triple>, missing: multiset<Triple>, matched: nat, nativeNodes: nat)
  {
    predicate Clean() {
      reasons == [] && extra == multiset{} && missing == multiset{}
    }
  }

  datatype NetlistError = AnonymousNet | AnonymousNode

  // ---- Lookup ----

  function ById(components: seq<(string, Component)>, id: string): Option<Component> {
    if components == [] then None
    else if components[0].0 == id then Some(components[0].1)
    else ById(components[1..], id)
  }

  function ByRef(components: seq<(string, Component)>, ref: string): Option<Component> {
    if components == [] then None
    else if components[0].1.ref == ref then Some(components[0].1)
    else ByRef(components[1..], ref)
  }

  /** By id first, then by reference designator. */
  function GetComponent(design: Design, ref: string): Option<Component> {
    var found := ById(design.components, ref);
    if found.Some? then found else ByRef(design.components, ref)
  }

  /** The named pads of the component with this designator; a later component overwrites. */
  function PhysicalPads(components: seq<(string, Component)>, ref: string): set<string> {
    if components == [] then {}
    else
      var c := components[|components| - 1].1;
      if c.ref == ref && c.pads != [] then set p | p in c.pads && p != ""
      else PhysicalPads(components[..|components| - 1], ref)
  }

  predicate IsPassive(c: Component) {
    c.kind == "resistor" || c.kind == "capacitor"
  }

  /** The pads a logical pin is mapped to; `None` when the part needs a map and has none. */
  function PadsOf(c: Component, pin: string): Option<set<string>> {
    if c.pinMap != map[] then Some(set p | p in c.pinMap && c.pinMap[p] == pin)
    else if IsPassive(c) then Some({pin})
    else None
  }

  // ---- The expected counter ----

  function Triples(ref: string, pads: set<string>, net: string): set<Triple> {
    set p | p in pads :: Triple(ref, p, net)
  }

  /** What one node of the logical netlist contributes. */
  function NodeImage(design: Design, net: string, node: Node): multiset<Triple> {
    match GetComponent(design, node.componentRef)
    case None => multiset{}
    case Some(c) =>
      match PadsOf(c, node.pin)
      case None => multiset{}
      case Some(pads) => multiset(Triples(c.ref, pads * PhysicalPads(design.components, c.ref), net))
  }

  function NodesImage(design: Design, net: string, nodes: seq<Node>): multiset<Triple> {
    if nodes == [] then multiset{}
    else NodesImage(design, net, nodes[..|nodes| - 1]) + NodeImage(design, net, nodes[|nodes| - 1])
  }

  /** The image of the logical netlist under the pin-to-pad relation. */
  function Image(design: Design, nets: seq<Net>): multiset<Triple> {
    if nets == [] then multiset{}
    else
      var net := nets[|nets| - 1];
      Image(design, nets[..|nets| - 1]) + NodesImage(design, net.name, net.nodes)
  }

  // ---- The lookups, spelled out ----

  /** The component of the reference: the first with that id, and without one the first with that
      designator. */
  ghost predicate IsFound(design: Design, ref: string, c: Component) {
    var cs := design.components;
    || (exists i :: 0 <= i < |cs| && cs[i].0 == ref && cs[i].1 == c && forall k | 0 <= k < i :: cs[k].0 != ref)
    || ((forall k | 0 <= k < |cs| :: cs[k].0 != ref)
        && exists i :: 0 <= i < |cs| && cs[i].1.ref == ref && cs[i].1 == c && forall k | 0 <= k < i ::
           cs[k].1.ref != ref)
  }

  lemma {:induction false} ByIdExactly(cs: seq<(string, Component)>, id: string) returns (i: nat)
    ensures i <= |cs| && forall k | 0 <= k < i :: cs[k].0 != id
    ensures ById(cs, id) == if i < |cs| then Some(cs[i].1) else None
    ensures i < |cs| ==> cs[i].0 == id
  {
    if cs == [] || cs[0].0 == id {
      i := 0;
    } else {
      i := ByIdExactly(cs[1..], id);
      assert forall k | 0 <= k < |cs| - 1 :: cs[1..][k] == cs[k + 1];
      i := i + 1;
    }
  }

  lemma {:induction false} ByRefExactly(cs: seq<(string, Component)>, ref: string) returns (i: nat)
    ensures i <= |cs| && forall k | 0 <= k < i :: cs[k].1.ref != ref
    ensures ByRef(cs, ref) == if i < |cs| then Some(cs[i].1) else None
    ensures i < |cs| ==> cs[i].1.ref == ref
  {
    if cs == [] || cs[0].1.ref == ref {
      i := 0;
    } else {
      i := ByRefExactly(cs[1..], ref);
      assert forall k | 0 <= k < |cs| - 1 :: cs[1..][k] == cs[k + 1];
      i := i + 1;
    }
  }

  lemma GetExactly(design: Design, ref: string, c: Component)
    ensures GetComponent(design, ref) == Some(c) <==> IsFound(design, ref, c)
  {
    var i := ByIdExactly(design.components, ref);
    var j := ByRefExactly(design.components, ref);
    if i < |design.components| {
      assert forall k | 0 <= k < |design.components| && design.components[k].0 == ref :: i <= k;
    }
  }

  /** The pad has an id, and the last component with that designator and with pads has it. */
  ghost predicate IsPad(cs: seq<(string, Component)>, ref: string, pad: string) {
    && pad != ""
    && exists i :: 0 <= i < |cs| && cs[i].1.ref == ref && pad in cs[i].1.pads
                   && forall k | i < k < |cs| :: cs[k].1.ref != ref || cs[k].1.pads == []
  }

  lemma {:induction false} PadsExactly(cs: seq<(string, Component)>, ref: string, pad: string)
    ensures pad in PhysicalPads(cs, ref) <==> IsPad(cs, ref, pad)
  {
    if cs != [] {
      var n := |cs| - 1;
      var init := cs[..n];
      PadsExactly(init, ref, pad);
      assert forall k | 0 <= k < n :: init[k] == cs[k];
      if cs[n].1.ref == ref && cs[n].1.pads != [] {
        if IsPad(cs, ref, pad) {
          var i :| 0 <= i < |cs| && cs[i].1.ref == ref && pad in cs[i].1.pads
                   && forall k | i < k < |cs| :: cs[k].1.ref != ref || cs[k].1.pads == [];
          assert i == n;
        }
      } else {
        PadsBefore(cs, ref, pad);
      }
    }
  }

  lemma PadsBefore(cs: seq<(string, Component)>, ref: string, pad: string)
    requires cs != [] && (cs[|cs| - 1].1.ref != ref || cs[|cs| - 1].1.pads == [])
    ensures IsPad(cs, ref, pad) <==> IsPad(cs[..|cs| - 1], ref, pad)
  {
    var init := cs[..|cs| - 1];
    assert forall k | 0 <= k < |init| :: init[k] == cs[k];
    if IsPad(cs, ref, pad) {
      var i :| 0 <= i < |cs| && cs[i].1.ref == ref && pad in cs[i].1.pads
               && forall k | i < k < |cs| :: cs[k].1.ref != ref || cs[k].1.pads == [];
      assert i < |init| && init[i] == cs[i];
    }
    if IsPad(init, ref, pad) {
      var i :| 0 <= i < |init| && init[i].1.ref == ref && pad in init[i].1.pads
               && forall k | i < k < |init| :: init[k].1.ref != ref || init[k].1.pads == [];
      assert cs[i] == init[i];
    }
  }

  /** The pads a pin is mapped to; a part that is no resistor or capacitor needs a map. */
  lemma PadsOfExactly(c: Component, pin: string, pad: string)
    ensures PadsOf(c, pin).None? <==> c.pinMap == map[] && c.kind != "resistor" && c.kind != "capacitor"
    ensures PadsOf(c, pin).Some? ==>
              (pad in PadsOf(c, pin).value
               <==> if c.pinMap != map[] then pad in c.pinMap && c.pinMap[pad] == pin else pad == pin)
  {
  }

  /** A component has sound geometry when it has pads and no two of them share an id. */
  lemma GeometryExactly(c: Component)
    ensures ComponentIsSound(c)
            <==> c.pads != [] && NoRepeat(c.pads)
  {
    NamedExactly(c.pads);
  }

  ghost predicate NoRepeat(pads: seq<string>) {
    forall i, j | 0 <= i < j < |pads| :: pads[i] != "" ==> pads[i] != pads[j]
  }

  lemma NoRepeatStep(pads: seq<string>)
    requires pads != []
    ensures NoRepeat(pads) <==> NoRepeat(pads[1..]) && (pads[0] != "" ==> pads[0] !in pads[1..])
  {
    var rest := pads[1..];
    assert forall k | 0 <= k < |rest| :: rest[k] == pads[k + 1];
    if NoRepeat(rest) && (pads[0] != "" ==> pads[0] !in rest) {
      forall i, j | 0 <= i < j < |pads| && pads[i] != "" ensures pads[i] != pads[j] {
        if i == 0 { assert pads[j] == rest[j - 1]; } else { assert rest[i - 1] != rest[j - 1]; }
      }
    }
  }

  lemma {:induction false} NamedExactly(pads: seq<string>)
    ensures (set p | p in Named(pads)) == (set p | p in pads && p != "")
    ensures |set p | p in Named(pads)| <= |Named(pads)|
    ensures |Named(pads)| == |set p | p in Named(pads)| <==> NoRepeat(pads)
  {
    if pads != [] {
      NamedExactly(pads[1..]);
      NoRepeatStep(pads);
      NamedStep(pads);
    }
  }

  lemma NamedStep(pads: seq<string>)
    requires pads != []
    ensures var p, rest := pads[0], pads[1..];
            && Named(pads) == (if p != "" then [p] else []) + Named(rest)
            && (set q | q in Named(pads)) == (set q | q in Named(rest)) + (if p != "" then {p} else {})
            && (set q | q in pads && q != "") == (set q | q in rest && q != "") + (if p != "" then {p} else {})
  {
  }

  /** A node puts a pad on a net: its component has that designator, the pin is mapped to the pad or, in a
      resistor or capacitor without a map, is the pad, and the pad exists. */
  ghost predicate Connects(design: Design, net: string, node: Node, t: Triple) {
    exists c ::
      && IsFound(design, node.componentRef, c) && t.ref == c.ref && t.net == net
      && IsPad(design.components, c.ref, t.pad)
      && if c.pinMap != map[] then t.pad in c.pinMap && c.pinMap[t.pad] == node.pin
         else (c.kind == "resistor" || c.kind == "capacitor") && t.pad == node.pin
  }

  lemma NodeImageIsRelation(design: Design, net: string, node: Node, t: Triple)
    ensures NodeImage(design, net, node)[t] == if Connects(design, net, node, t) then 1 else 0
  {
    var found := GetComponent(design, node.componentRef);
    forall c ensures found == Some(c) <==> IsFound(design, node.componentRef, c) {
      GetExactly(design, node.componentRef, c);
    }
    if found.Some? {
      PadsExactly(design.components, found.value.ref, t.pad);
      FoundImage(design, net, node, t, found.value);
    }
  }

  lemma FoundImage(design: Design, net: string, node: Node, t: Triple, c: Component)
    requires GetComponent(design, node.componentRef) == Some(c)
    ensures NodeImage(design, net, node)[t]
            == if && t.ref == c.ref && t.net == net && t.pad in PhysicalPads(design.components, c.ref)
                  && (if c.pinMap != map[] then t.pad in c.pinMap && c.pinMap[t.pad] == node.pin
                      else (c.kind == "resistor" || c.kind == "capacitor") && t.pad == node.pin) then 1 else 0
  {
    if PadsOf(c, node.pin).Some? {
      var pads := PadsOf(c, node.pin).value * PhysicalPads(design.components, c.ref);
      TripleIn(c.ref, pads, net, t);
    }
  }

  lemma TripleIn(ref: string, pads: set<string>, net: string, t: Triple)
    ensures t in Triples(ref, pads, net) <==> t.ref == ref && t.net == net && t.pad in pads
  {
    assert t.ref == ref && t.net == net ==> t == Triple(ref, t.pad, net);
  }

  // ---- The counters, spelled out ----

  /** The positions of the nodes that put the triple there. */
  ghost function ConnectedAt(design: Design, net: string, nodes: seq<Node>, t: Triple, n: nat): set<int>
    requires n <= |nodes|
  {
    Where(node => Connects(design, net, node, t), nodes, n)
  }

  lemma NodesImageStep(design: Design, net: string, nodes: seq<Node>, t: Triple, n: nat)
    requires n < |nodes|
    ensures NodesImage(design, net, nodes[..n + 1])[t]
            == NodesImage(design, net, nodes[..n])[t] + if Connects(design, net, nodes[n], t) then 1 else 0
  {
    NodesStep(design, net, nodes, n);
    NodeImageIsRelation(design, net, nodes[n], t);
  }

  lemma ConnectedStep(design: Design, net: string, nodes: seq<Node>, t: Triple, n: nat)
    requires n < |nodes|
    ensures |ConnectedAt(design, net, nodes, t, n + 1)|
            == |ConnectedAt(design, net, nodes, t, n)| + if Connects(design, net, nodes[n], t) then 1 else 0
  {
    WhereStep(node => Connects(design, net, node, t), nodes, n);
  }

  ghost function ImageCount(design: Design, net: string, nodes: seq<Node>, t: Triple, n: nat): int {
    if n <= |nodes| then NodesImage(design, net, nodes[..n])[t] else 0
  }

  ghost function ConnectedCount(design: Design, net: string, nodes: seq<Node>, t: Triple, n: nat): int {
    if n <= |nodes| then |ConnectedAt(design, net, nodes, t, n)| else 0
  }

  lemma CountsStep(design: Design, net: string, nodes: seq<Node>, t: Triple, n: nat)
    requires n < |nodes|
    ensures ImageCount(design, net, nodes, t, n + 1) - ImageCount(design, net, nodes, t, n)
            == ConnectedCount(design, net, nodes, t, n + 1) - ConnectedCount(design, net, nodes, t, n)
  {
    NodesImageStep(design, net, nodes, t, n);
    ConnectedStep(design, net, nodes, t, n);
  }

  lemma CountsAlike(design: Design, net: string, nodes: seq<Node>, t: Triple)
    ensures ImageCount(design, net, nodes, t, |nodes|) == ConnectedCount(design, net, nodes, t, |nodes|)
  {
    var f: nat -> int := (k: nat) => ImageCount(design, net, nodes, t, k);
    var g: nat -> int := (k: nat) => ConnectedCount(design, net, nodes, t, k);
    forall k: nat | k < |nodes| ensures f(k + 1) - f(k) == g(k + 1) - g(k) {
      CountsStep(design, net, nodes, t, k);
    }
    NoneConnected(design, net, nodes, t);
    StepAlike(f, g, |nodes|);
  }

  lemma NodesImageCounts(design: Design, net: string, nodes: seq<Node>, t: Triple)
    ensures NodesImage(design, net, nodes)[t] == |ConnectedAt(design, net, nodes, t, |nodes|)|
  {
    CountsAlike(design, net, nodes, t);
    assert nodes[..|nodes|] == nodes;
  }

  lemma NoneConnected(design: Design, net: string, nodes: seq<Node>, t: Triple)
    ensures ConnectedAt(design, net, nodes, t, 0) == {} && NodesImage(design, net, nodes[..0]) == multiset{}
  {
  }

  /** The image counts every node of every net that connects the triple. */
  lemma {:induction false} ImageCounts(design: Design, nets: seq<Net>, n: nat, t: Triple)
    requires n < |nets|
    ensures Image(design, nets[..n + 1])[t]
            == Image(design, nets[..n])[t]
               + |ConnectedAt(design, nets[n].name, nets[n].nodes, t, |nets[n].nodes|)|
    ensures Image(design, []) == multiset{}
  {
    NetsStep(design, nets, n);
    NodesImageCounts(design, nets[n].name, nets[n].nodes, t);
  }

  ghost function NativeAt(net: NativeNet, t: Triple, n: nat): set<int>
    requires n <= |net.nodes|
  {
    Where(node => node == NativeNode(t.ref, t.pad), net.nodes, n)
  }

  lemma {:induction false} NativeNodesCount(net: NativeNet, t: Triple, n: nat)
    requires n <= |net.nodes|
    ensures NativeNodes(net.name, net.nodes[..n])[t] == if t.net == net.name then |NativeAt(net, t, n)| else 0
  {
    if n > 0 {
      NativeNodesCount(net, t, n - 1);
      PrefixStep(net.nodes, n - 1);
      WhereStep(node => node == NativeNode(t.ref, t.pad), net.nodes, n - 1);
    }
  }

  /** The native counter counts every node of every net of that name. */
  lemma NativeCounts(nets: seq<NativeNet>, n: nat, t: Triple)
    requires n < |nets|
    ensures NativeTriples(nets[..n + 1])[t]
            == NativeTriples(nets[..n])[t]
               + if t.net == nets[n].name then |NativeAt(nets[n], t, |nets[n].nodes|)| else 0
    ensures NativeTriples([]) == multiset{}
  {
    NativeTriplesStep(nets, n);
    NativeNodesCount(nets[n], t, |nets[n].nodes|);
    assert nets[n].nodes[..|nets[n].nodes|] == nets[n].nodes;
  }

  /** Every pad of the node exists, and there is at least one. */
  ghost predicate NodeIsSound(design: Design, node: Node) {
    && GetComponent(design, node.componentRef).Some?
    && var c := GetComponent(design, node.componentRef).value;
    && PadsOf(c, node.pin).Some?
    && {} != PadsOf(c, node.pin).value <= PhysicalPads(design.components, c.ref)
  }

  ghost predicate NodesSound(design: Design, nodes: seq<Node>) {
    nodes == [] || (NodesSound(design, nodes[..|nodes| - 1]) && NodeIsSound(design, nodes[|nodes| - 1]))
  }

  ghost predicate NetsSound(design: Design, nets: seq<Net>) {
    nets == [] || (NetsSound(design, nets[..|nets| - 1]) && NodesSound(design, nets[|nets| - 1].nodes))
  }

  ghost predicate GeometrySound(components: seq<(string, Component)>) {
    forall i | 0 <= i < |components| :: ComponentIsSound(components[i].1)
  }

  predicate ComponentIsSound(c: Component) {
    c.pads != [] && |Named(c.pads)| == |set p | p in Named(c.pads)|
  }

  function Named(pads: seq<string>): seq<string> {
    if pads == [] then [] else (if pads[0] != "" then [pads[0]] else []) + Named(pads[1..])
  }

  // ---- What is reported ----

  ghost predicate ComponentReports(c: Component, r: Reason) {
    match r
    case MissingGeometry(ref) => ref == c.ref && c.pads == []
    case RepeatedPad(ref) => ref == c.ref && c.pads != [] && !ComponentIsSound(c)
    case _ => false
  }

  ghost predicate NodeReports(design: Design, node: Node, r: Reason) {
    match GetComponent(design, node.componentRef)
    case None => r == UnknownComponent(node.componentRef)
    case Some(c) =>
      match PadsOf(c, node.pin)
      case None => r == MissingPinMap(c.ref, node.pin)
      case Some(pads) =>
        || (pads == {} && r == UnmappedPin(c.ref, node.pin))
        || (r.AbsentPad? && r.ref == c.ref && r.pin == node.pin
            && r.pad in pads - PhysicalPads(design.components, c.ref))
  }

  ghost predicate GeometryReports(components: seq<(string, Component)>, r: Reason) {
    exists c <- components :: ComponentReports(c.1, r)
  }

  ghost predicate NodesReport(design: Design, nodes: seq<Node>, r: Reason) {
    exists node <- nodes :: NodeReports(design, node, r)
  }

  ghost predicate NetsReport(design: Design, nets: seq<Net>, r: Reason) {
    exists net <- nets :: NodesReport(design, net.nodes, r)
  }

  /** The rule of a node behind each reason. */
  ghost predicate NodeBreaks(design: Design, node: Node, r: Reason) {
    match r
    case UnknownComponent(ref) => ref == node.componentRef && forall c :: !IsFound(design, ref, c)
    case MissingPinMap(ref, pin) =>
      && pin == node.pin
      && exists c :: && IsFound(design, node.componentRef, c) && c.ref == ref && c.pinMap == map[]
                     && c.kind != "resistor" && c.kind != "capacitor"
    case UnmappedPin(ref, pin) =>
      && pin == node.pin
      && exists c :: && IsFound(design, node.componentRef, c) && c.ref == ref && c.pinMap != map[]
                     && pin !in c.pinMap.Values
    case AbsentPad(ref, pin, pad) =>
      && pin == node.pin
      && exists c :: IsFound(design, node.componentRef, c) && c.ref == ref && Needs(c, pin, pad)
                     && !IsPad(design.components, ref, pad)
    case _ => false
  }

  ghost predicate Needs(c: Component, pin: string, pad: string) {
    if c.pinMap != map[] then pad in c.pinMap && c.pinMap[pad] == pin
    else (c.kind == "resistor" || c.kind == "capacitor") && pad == pin
  }

  lemma NodeReportsExactly(design: Design, node: Node, r: Reason)
    ensures NodeReports(design, node, r) <==> NodeBreaks(design, node, r)
  {
    forall c ensures GetComponent(design, node.componentRef) == Some(c) <==> IsFound(design, node.componentRef, c) {
      GetExactly(design, node.componentRef, c);
    }
    match GetComponent(design, node.componentRef)
    case None =>
    case Some(c) =>
      FoundBreaks(design, node, r, c);
      assert forall d :: IsFound(design, node.componentRef, d) <==> d == c;
  }

  lemma FoundBreaks(design: Design, node: Node, r: Reason, c: Component)
    requires GetComponent(design, node.componentRef) == Some(c)
    ensures NodeReports(design, node, r)
            <==> match r
                 case MissingPinMap(ref, pin) =>
                   && ref == c.ref && pin == node.pin && c.pinMap == map[]
                   && c.kind != "resistor" && c.kind != "capacitor"
                 case UnmappedPin(ref, pin) =>
                   ref == c.ref && pin == node.pin && c.pinMap != map[] && pin !in c.pinMap.Values
                 case AbsentPad(ref, pin, pad) =>
                   ref == c.ref && pin == node.pin && Needs(c, pin, pad) && !IsPad(design.components, ref, pad)
                 case _ => false
  {
    if r.AbsentPad? {
      PadsExactly(design.components, c.ref, r.pad);
    }
    if r.UnmappedPin? && c.pinMap == map[] && PadsOf(c, node.pin).Some? {
      assert node.pin in PadsOf(c, node.pin).value;
    }
    if r.UnmappedPin? && c.pinMap != map[] {
      var pads := PadsOf(c, node.pin).value;
      assert forall p | p in c.pinMap && c.pinMap[p] == node.pin :: p in pads;
      assert forall p <- pads :: c.pinMap[p] == node.pin;
    }
  }

  // ---- The crosscheck ----

  lemma GeometryStep(components: seq<(string, Component)>, i: nat)
    requires i < |components|
    ensures GeometrySound(components[..i + 1]) <==>
              GeometrySound(components[..i]) && ComponentIsSound(components[i].1)
    ensures forall r :: GeometryReports(components[..i + 1], r) <==>
              GeometryReports(components[..i], r) || ComponentReports(components[i].1, r)
  {
    PrefixStep(components, i);
    assert forall k | 0 <= k < i :: components[..i + 1][k] == components[..i][k];
    assert components[..i + 1][i] == components[i];
  }

  method CheckGeometry(components: seq<(string, Component)>) returns (reasons: seq<Reason>)
    ensures reasons == [] <==> GeometrySound(components)
    ensures forall r :: r in reasons <==> GeometryReports(components, r)
  {
    reasons := [];
    for i := 0 to |components|
      invariant reasons == [] <==> GeometrySound(components[..i])
      invariant forall r :: r in reasons <==> GeometryReports(components[..i], r)
    {
      var c := components[i].1;
      GeometryStep(components, i);
      if c.pads == [] {
        reasons := reasons + [MissingGeometry(c.ref)];
      } else if |Named(c.pads)| != |set p | p in Named(c.pads)| {
        reasons := reasons + [RepeatedPad(c.ref)];
      }
    }
    assert components[..|components|] == components;
  }

  /** The innermost loop: one count per mapped pad that exists, one reason per pad that does not. */
  method CountPads(ref: string, pin: string, net: string, matches: set<string>, physical: set<string>)
    returns (counted: multiset<Triple>, reasons: seq<Reason>)
    ensures counted == multiset(Triples(ref, matches * physical, net))
    ensures reasons == [] <==> matches <= physical
    ensures forall r :: r in reasons <==> r.AbsentPad? && r.ref == ref && r.pin == pin && r.pad in matches - physical
  {
    counted, reasons := multiset{}, [];
    var todo := matches;
    while todo != {}
      invariant todo <= matches
      invariant counted == multiset(Triples(ref, (matches - todo) * physical, net))
      invariant reasons == [] <==> matches - todo <= physical
      invariant forall r :: r in reasons <==>
                  r.AbsentPad? && r.ref == ref && r.pin == pin && r.pad in matches - todo - physical
      decreases todo
    {
      var pad :| pad in todo;
      var t := Triple(ref, pad, net);
      ghost var before := Triples(ref, (matches - todo) * physical, net);
      todo := todo - {pad};
      ghost var after := Triples(ref, (matches - todo) * physical, net);
      if pad !in physical {
        reasons := reasons + [AbsentPad(ref, pin, pad)];
        assert after == before;
      } else {
        assert after == before + {t} && t !in before;
        counted := counted + multiset{t};
      }
    }
    assert matches - {} == matches;
  }

  method CheckNode(design: Design, net: string, node: Node) returns (counted: multiset<Triple>, reasons: seq<Reason>)
    ensures counted == NodeImage(design, net, node)
    ensures reasons == [] <==> NodeIsSound(design, node)
    ensures forall r :: r in reasons <==> NodeReports(design, node, r)
  {
    counted, reasons := multiset{}, [];
    var found := GetComponent(design, node.componentRef);
    if found.None? {
      reasons := [UnknownComponent(node.componentRef)];
      return;
    }
    var c := found.value;
    var mapped := PadsOf(c, node.pin);
    if mapped.None? {
      reasons := [MissingPinMap(c.ref, node.pin)];
      return;
    }
    if mapped.value == {} {
      reasons := [UnmappedPin(c.ref, node.pin)];
    }
    var more;
    counted, more := CountPads(c.ref, node.pin, net, mapped.value, PhysicalPads(design.components, c.ref));
    reasons := reasons + more;
  }

  lemma NodesStep(design: Design, net: string, nodes: seq<Node>, i: nat)
    requires i < |nodes|
    ensures NodesImage(design, net, nodes[..i + 1])
            == NodesImage(design, net, nodes[..i]) + NodeImage(design, net, nodes[i])
    ensures NodesSound(design, nodes[..i + 1]) <==> NodesSound(design, nodes[..i]) && NodeIsSound(design, nodes[i])
  {
    PrefixStep(nodes, i);
  }

  lemma NodesReportStep(design: Design, nodes: seq<Node>, i: nat)
    requires i < |nodes|
    ensures forall r :: NodesReport(design, nodes[..i + 1], r) <==>
              NodesReport(design, nodes[..i], r) || NodeReports(design, nodes[i], r)
  {
  }

  lemma NetsStep(design: Design, nets: seq<Net>, i: nat)
    requires i < |nets|
    ensures Image(design, nets[..i + 1]) == Image(design, nets[..i]) + NodesImage(design, nets[i].name, nets[i].nodes)
    ensures NetsSound(design, nets[..i + 1]) <==> NetsSound(design, nets[..i]) && NodesSound(design, nets[i].nodes)
  {
    PrefixStep(nets, i);
  }

  lemma NetsReportStep(design: Design, nets: seq<Net>, i: nat)
    requires i < |nets|
    ensures forall r :: NetsReport(design, nets[..i + 1], r) <==>
              NetsReport(design, nets[..i], r) || NodesReport(design, nets[i].nodes, r)
  {
  }

  method ExpectedTriples(design: Design) returns (expected: multiset<Triple>, reasons: seq<Reason>)
    ensures expected == Image(design, design.nets)
    ensures reasons == [] <==> NetsSound(design, design.nets)
    ensures forall r :: r in reasons <==> NetsReport(design, design.nets, r)
  {
    expected, reasons := multiset{}, [];
    for i := 0 to |design.nets|
      invariant expected == Image(design, design.nets[..i])
      invariant reasons == [] <==> NetsSound(design, design.nets[..i])
      invariant forall r :: r in reasons <==> NetsReport(design, design.nets[..i], r)
    {
      var net := design.nets[i];
      NetsStep(design, design.nets, i);
      NetsReportStep(design, design.nets, i);
      var counted, more := CheckNet(design, net);
      expected := expected + counted;
      reasons := reasons + more;
    }
    assert design.nets[..|design.nets|] == design.nets;
  }

  method CheckNet(design: Design, net: Net) returns (counted: multiset<Triple>, reasons: seq<Reason>)
    ensures counted == NodesImage(design, net.name, net.nodes)
    ensures reasons == [] <==> NodesSound(design, net.nodes)
    ensures forall r :: r in reasons <==> NodesReport(design, net.nodes, r)
  {
    counted, reasons := multiset{}, [];
    for i := 0 to |net.nodes|
      invariant counted == NodesImage(design, net.name, net.nodes[..i])
      invariant reasons == [] <==> NodesSound(design, net.nodes[..i])
      invariant forall r :: r in reasons <==> NodesReport(design, net.nodes[..i], r)
    {
      NodesStep(design, net.name, net.nodes, i);
      NodesReportStep(design, net.nodes, i);
      var one, more := CheckNode(design, net.name, net.nodes[i]);
      counted := counted + one;
      reasons := reasons + more;
    }
    assert net.nodes[..|net.nodes|] == net.nodes;
  }

  function NativeNodes(name: string, nodes: seq<NativeNode>): multiset<Triple> {
    if nodes == [] then multiset{}
    else
      var last := nodes[|nodes| - 1];
      NativeNodes(name, nodes[..|nodes| - 1]) + multiset{Triple(last.ref, last.pad, name)}
  }

  function NativeTriples(nets: seq<NativeNet>): multiset<Triple> {
    if nets == [] then multiset{}
    else
      var net := nets[|nets| - 1];
      NativeTriples(nets[..|nets| - 1]) + NativeNodes(net.name, net.nodes)
  }

  predicate NamedNode(node: NativeNode) {
    node.ref != "" && node.pad != ""
  }

  ghost predicate AllNamed(nets: seq<NativeNet>) {
    forall net <- nets :: WellNamed(net)
  }

  predicate WellNamed(net: NativeNet) {
    net.name != "" && forall k | 0 <= k < |net.nodes| :: NamedNode(net.nodes[k])
  }

  method CountNativeNet(net: NativeNet) returns (r: Result<multiset<Triple>, NetlistError>)
    ensures r.Ok? <==> WellNamed(net)
    ensures r.Ok? ==> r.value == NativeNodes(net.name, net.nodes)
  {
    if net.name == "" {
      return Err(AnonymousNet);
    }
    var native: multiset<Triple> := multiset{};
    for j := 0 to |net.nodes|
      invariant native == NativeNodes(net.name, net.nodes[..j])
      invariant forall k | 0 <= k < j :: NamedNode(net.nodes[k])
    {
      assert net.nodes[..j + 1][..j] == net.nodes[..j];
      if !NamedNode(net.nodes[j]) {
        return Err(AnonymousNode);
      }
      native := native + multiset{Triple(net.nodes[j].ref, net.nodes[j].pad, net.name)};
    }
    assert net.nodes[..|net.nodes|] == net.nodes;
    return Ok(native);
  }

  lemma NativeTriplesStep(nets: seq<NativeNet>, i: nat)
    requires i < |nets|
    ensures NativeTriples(nets[..i + 1]) == NativeTriples(nets[..i]) + NativeNodes(nets[i].name, nets[i].nodes)
    ensures AllNamed(nets[..i + 1]) <==> AllNamed(nets[..i]) && WellNamed(nets[i])
  {
    PrefixStep(nets, i);
  }

  method CountNative(nets: seq<NativeNet>) returns (r: Result<multiset<Triple>, NetlistError>)
    ensures r.Ok? <==> AllNamed(nets)
    ensures r.Ok? ==> r.value == NativeTriples(nets)
  {
    var native: multiset<Triple> := multiset{};
    for i := 0 to |nets|
      invariant native == NativeTriples(nets[..i])
      invariant AllNamed(nets[..i])
    {
      NativeTriplesStep(nets, i);
      var one := CountNativeNet(nets[i]);
      if one.Err? {
        return Err(one.error);
      }
      native := native + one.value;
    }
    assert nets[..|nets|] == nets;
    r := Ok(native);
  }

  /** A clean outcome is exactly: sound geometry, every node maps to existing pads, and the native
      netlist is the image of the logical one.  In every case the differences are disjoint, balance
      the two netlists, and the counts add up. */
  method Crosscheck(design: Design, nets: seq<NativeNet>) returns (r: Result<Outcome, NetlistError>)
    ensures r.Ok? <==> AllNamed(nets)
    ensures r.Ok? ==>
              (r.value.Clean() <==>
                 && GeometrySound(design.components)
                 && NetsSound(design, design.nets)
                 && NativeTriples(nets) == Image(design, design.nets))
    ensures r.Ok? ==>
              forall reason :: reason in r.value.reasons <==>
                                 GeometryReports(design.components, reason) || NetsReport(design, design.nets, reason)
    ensures r.Ok? ==>
              && r.value.extra !! r.value.missing
              && NativeTriples(nets) + r.value.missing == Image(design, design.nets) + r.value.extra
    ensures r.Ok? ==>
              && r.value.nativeNodes == |NativeTriples(nets)| == r.value.matched + |r.value.extra|
              && |Image(design, design.nets)| == r.value.matched + |r.value.missing|
  {
    var geometry := CheckGeometry(design.components);
    var expected, reasons := ExpectedTriples(design);
    var counted := CountNative(nets);
    if counted.Err? {
      return Err(counted.error);
    }
    var native := counted.value;
    MultisetsBalance(native, expected);
    return Ok(Outcome(geometry + reasons, native - expected, expected - native, |expected * native|, |native|));
  }

  /** The two differences are the only disjoint ones that balance. */
  lemma MultisetsBalance<T>(a: multiset<T>, b: multiset<T>)
    ensures (a - b) !! (b - a) && a + (b - a) == b + (a - b)
    ensures forall x: multiset<T>, y: multiset<T> | x !! y && a + y == b + x :: x == a - b && y == b - a
  {
    forall x: multiset<T>, y: multiset<T> | x !! y && a + y == b + x ensures x == a - b && y == b - a {
      forall t ensures x[t] == (a - b)[t] && y[t] == (b - a)[t] {
        assert (a + y)[t] == (b + x)[t];
      }
    }
  }

  // ---- No pad on two nets ----

  ghost predicate UniqueRefs(components: seq<(string, Component)>) {
    forall i, j | 0 <= i < j < |components| :: components[i].1.ref != components[j].1.ref
  }

  /** A node and the net that holds it. */
  ghost predicate OnNet(design: Design, node: Node, net: string) {
    exists n <- design.nets :: n.name == net && node in n.nodes
  }

  /** Each pin of each component is on nets of one name only. */
  ghost predicate OneNetPerPin(design: Design) {
    forall x, y, m, n | OnNet(design, x, m) && OnNet(design, y, n) && x.pin == y.pin
                        && GetComponent(design, x.componentRef) == GetComponent(design, y.componentRef) != None
      :: m == n
  }

  lemma {:induction false} ImageComesFromNode(design: Design, nets: seq<Net>, t: Triple) returns (net: Net, node: Node)
    requires t in Image(design, nets)
    ensures net in nets && node in net.nodes && t in NodeImage(design, net.name, node)
  {
    var last := nets[|nets| - 1];
    if t in NodesImage(design, last.name, last.nodes) {
      net := last;
      node := NodesImageComesFromNode(design, last.name, last.nodes, t);
    } else {
      net, node := ImageComesFromNode(design, nets[..|nets| - 1], t);
    }
  }

  lemma {:induction false} NodesImageComesFromNode(design: Design, net: string, nodes: seq<Node>, t: Triple)
    returns (node: Node)
    requires t in NodesImage(design, net, nodes)
    ensures node in nodes && t in NodeImage(design, net, node)
  {
    if t in NodeImage(design, net, nodes[|nodes| - 1]) {
      node := nodes[|nodes| - 1];
    } else {
      node := NodesImageComesFromNode(design, net, nodes[..|nodes| - 1], t);
    }
  }

  lemma {:induction false} FoundIsListed(components: seq<(string, Component)>, key: string)
    ensures var c := ById(components, key); c.Some? ==> exists i :: 0 <= i < |components| && components[i].1 == c.value
    ensures var c := ByRef(components, key); c.Some? ==> exists i :: 0 <= i < |components| && components[i].1 == c.value
  {
    if components != [] {
      FoundIsListed(components[1..], key);
      assert forall i | 0 <= i < |components| - 1 :: components[1..][i] == components[i + 1];
    }
  }

  /** With unique designators a designator names one component. */
  lemma SameRefSameComponent(design: Design, a: string, b: string)
    requires UniqueRefs(design.components)
    requires GetComponent(design, a).Some? && GetComponent(design, b).Some?
    requires GetComponent(design, a).value.ref == GetComponent(design, b).value.ref
    ensures GetComponent(design, a) == GetComponent(design, b)
  {
    FoundIsListed(design.components, a);
    FoundIsListed(design.components, b);
    var i :| 0 <= i < |design.components| && design.components[i].1 == GetComponent(design, a).value;
    var j :| 0 <= j < |design.components| && design.components[j].1 == GetComponent(design, b).value;
  }

  /** If each logical pin is on one net, then no physical pad is on two nets of a native netlist
      that equals the image. */
  lemma NoPadOnTwoNets(design: Design, native: multiset<Triple>, t: Triple, u: Triple)
    requires UniqueRefs(design.components) && OneNetPerPin(design) && native == Image(design, design.nets)
    requires t in native && u in native && t.ref == u.ref && t.pad == u.pad
    ensures t.net == u.net
  {
    var m, x := ImageComesFromNode(design, design.nets, t);
    var n, y := ImageComesFromNode(design, design.nets, u);
    SameRefSameComponent(design, x.componentRef, y.componentRef);
    assert OnNet(design, x, m.name) && OnNet(design, y, n.name);
  }
}
