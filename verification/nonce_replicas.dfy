/**
 Login nonces when the table is replicated to several nodes that each accept writes
 (src/controllers/auth/nonce.rs): a nonce and its deletion reach each node in their own time, and a
 login deletes the row on the node that serves it.
 */
module NonceReplicas {
  import N = AuthNonce

  /** One node's copy of `auth_nonce`, and history: the messages that reached it and those taken on it. */
  datatype Node = Node(table: N.Table, landed: set<N.Message>, taken: set<N.Message>)

  datatype Nonce = Nonce(address: N.Address, expiresAt: nat)

  /** A login that was let through. */
  datatype Win = Win(message: N.Message, node: nat)

  datatype State = State(now: nat, nodes: seq<Node>, issued: map<N.Message, Nonce>, wins: seq<Win>)

  datatype Step =
    | Tick(d: nat)
    | Issue(m: N.Message, a: N.Address, ttl: nat)
    | Land(n: nat, m: N.Message)             // the upsert, where it was made or replicated
    | Take(n: nat, a: N.Address, m: N.Message)
    | Erase(n: nat, m: N.Message)            // a deletion made on another node arrives

  function Start(nodes: nat): State { State(0, seq(nodes, _ => Node(map[], {}, {})), map[], []) }

  predicate TakenSomewhere(s: State, m: N.Message) { exists n :: 0 <= n < |s.nodes| && m in s.nodes[n].taken }

  predicate Enabled(s: State, step: Step) {
    match step
    case Tick(_) => true
    case Issue(m, _, _) => m !in s.issued
    case Land(n, m) => n < |s.nodes| && m in s.issued && m !in s.nodes[n].landed
    case Take(n, a, m) => n < |s.nodes| && N.Matches(s.nodes[n].table, s.now, a, m)
    case Erase(n, m) => n < |s.nodes| && TakenSomewhere(s, m)
  }

  function Stored(s: State, m: N.Message): N.NonceRow
    requires m in s.issued
  {
    N.NonceRow(m, s.issued[m].expiresAt)
  }

  function Without(table: N.Table, m: N.Message): N.Table { map a | a in table && table[a].message != m :: table[a] }

  function Apply(s: State, step: Step): State
    requires Enabled(s, step)
  {
    match step
    case Tick(d) => s.(now := s.now + d)
    case Issue(m, a, ttl) => s.(issued := s.issued[m := Nonce(a, s.now + ttl)])
    case Land(n, m) =>
      var node := s.nodes[n];
      s.(nodes := s.nodes[n := node.(table := node.table[s.issued[m].address := Stored(s, m)],
                                     landed := node.landed + {m})])
    case Take(n, a, m) =>
      var node := s.nodes[n];
      s.(nodes := s.nodes[n := node.(table := N.TakeFrom(node.table, s.now, a, m), taken := node.taken + {m})],
         wins := s.wins + [Win(m, n)])
    case Erase(n, m) => s.(nodes := s.nodes[n := s.nodes[n].(table := Without(s.nodes[n].table, m))])
  }

  function Next(s: State, step: Step): State { if Enabled(s, step) then Apply(s, step) else s }

  function Run(s: State, steps: seq<Step>): State
    decreases |steps|
  {
    if steps == [] then s else Run(Next(s, steps[0]), steps[1..])
  }

  // ----- At most one login for each node -----

  /** What is in a node's table has landed there, for the address it was issued for, and was not taken there. */
  ghost predicate NodeInv(issued: map<N.Message, Nonce>, node: Node) {
    && node.taken <= node.landed <= issued.Keys
    && (forall a :: a in node.table ==>
          var m := node.table[a].message;
          m in node.landed && m !in node.taken && issued[m].address == a)
  }

  predicate WinFits(s: State, w: Win) { w.node < |s.nodes| && w.message in s.nodes[w.node].taken }

  ghost predicate Inv(s: State) {
    && (forall n :: 0 <= n < |s.nodes| ==> NodeInv(s.issued, s.nodes[n]))
    && (forall i :: 0 <= i < |s.wins| ==> WinFits(s, s.wins[i]))
    && (forall i, j :: 0 <= i < j < |s.wins| ==> s.wins[i] != s.wins[j])
  }

  lemma NodesKept(s: State, step: Step, n: nat)
    requires Inv(s) && Enabled(s, step) && n < |s.nodes|
    ensures |Apply(s, step).nodes| == |s.nodes| && NodeInv(Apply(s, step).issued, Apply(s, step).nodes[n])
    ensures s.nodes[n].taken <= Apply(s, step).nodes[n].taken
  {
    assert NodeInv(s.issued, s.nodes[n]);
  }

  lemma WinsKept(s: State, step: Step)
    requires Inv(s) && Enabled(s, step)
    ensures var t := Apply(s, step);
      && (forall i :: 0 <= i < |t.wins| ==> WinFits(t, t.wins[i]))
      && (forall i, j :: 0 <= i < j < |t.wins| ==> t.wins[i] != t.wins[j])
  {
    hide NodeInv;
    var t := Apply(s, step);
    if step.Take? {
      assert step.m !in s.nodes[step.n].taken by {
        MatchedNotTaken(s.issued, s.nodes[step.n], s.now, step.a, step.m);
      }
    }
    forall i | 0 <= i < |t.wins| ensures WinFits(t, t.wins[i]) {
      if i < |s.wins| {
        assert WinFits(s, s.wins[i]);
        NodesKept(s, step, s.wins[i].node);
      }
    }
    forall i, j | 0 <= i < j < |t.wins| ensures t.wins[i] != t.wins[j] {
      assert WinFits(s, s.wins[i]);
    }
  }

  lemma MatchedNotTaken(issued: map<N.Message, Nonce>, node: Node, now: nat, a: N.Address, m: N.Message)
    requires NodeInv(issued, node) && N.Matches(node.table, now, a, m)
    ensures m !in node.taken
  {
  }

  lemma {:induction false} RunKeepsInv(s: State, steps: seq<Step>)
    requires Inv(s)
    ensures Inv(Run(s, steps)) && |Run(s, steps).nodes| == |s.nodes|
    decreases |steps|
  {
    if steps == [] {
    } else {
      if Enabled(s, steps[0]) {
        WinsKept(s, steps[0]);
        forall n | 0 <= n < |s.nodes| ensures NodeInv(Apply(s, steps[0]).issued, Apply(s, steps[0]).nodes[n]) {
          NodesKept(s, steps[0], n);
        }
      }
      RunKeepsInv(Next(s, steps[0]), steps[1..]);
    }
  }

  /** Over every run a nonce lets at most one login through on each node. */
  lemma OneWinPerNode(nodes: nat, steps: seq<Step>, i: nat, j: nat)
    requires i < j < |Run(Start(nodes), steps).wins|
    ensures var wins := Run(Start(nodes), steps).wins;
      && wins[i].node < nodes && wins[j].node < nodes
      && (wins[i].message == wins[j].message ==> wins[i].node != wins[j].node)
  {
    hide Run;
    var s := Run(Start(nodes), steps);
    RunKeepsInv(Start(nodes), steps);
    assert WinFits(s, s.wins[i]) && WinFits(s, s.wins[j]);
  }

  // ----- Exactly when single use survives replication -----

  ghost predicate SingleUse(nodes: nat) {
    forall steps, i: nat, j: nat :: var wins := Run(Start(nodes), steps).wins;
      i < j < |wins| ==> wins[i].message != wins[j].message
  }

  lemma RunCons(s: State, step: Step, steps: seq<Step>)
    ensures Run(s, [step] + steps) == Run(Next(s, step), steps)
  {
    assert ([step] + steps)[1..] == steps;
  }

  function TwiceOn(m: N.Message): seq<Step> {
    [Issue(m, "a", 1)] + ([Land(0, m)] + ([Land(1, m)] + ([Take(0, "a", m)] + ([Take(1, "a", m)] + []))))
  }

  /** Before the first deletion reaches it, a second node lets the same nonce through again. */
  lemma TwoNodesUseTwice(nodes: nat, m: N.Message)
    requires nodes >= 2
    ensures Run(Start(nodes), TwiceOn(m)).wins == [Win(m, 0), Win(m, 1)]
  {
    hide Run;
    var s := Start(nodes);
    var s1, s2 := Next(s, Issue(m, "a", 1)), Next(Next(s, Issue(m, "a", 1)), Land(0, m));
    var s3 := Next(s2, Land(1, m));
    var s4 := Next(s3, Take(0, "a", m));
    var s5 := Next(s4, Take(1, "a", m));
    RunCons(s, Issue(m, "a", 1), [Land(0, m)] + ([Land(1, m)] + ([Take(0, "a", m)] + ([Take(1, "a", m)] + []))));
    RunCons(s1, Land(0, m), [Land(1, m)] + ([Take(0, "a", m)] + ([Take(1, "a", m)] + [])));
    RunCons(s2, Land(1, m), [Take(0, "a", m)] + ([Take(1, "a", m)] + []));
    RunCons(s3, Take(0, "a", m), [Take(1, "a", m)] + []);
    RunCons(s4, Take(1, "a", m), []);
    RunNone(s5);
    assert N.Matches(s3.nodes[0].table, 0, "a", m) && N.Matches(s4.nodes[1].table, 0, "a", m);
  }

  lemma RunNone(s: State)
    ensures Run(s, []) == s
  {
  }

  /** Single use survives replication exactly if only one node accepts the deletion. */
  lemma SingleUseIff(nodes: nat)
    ensures SingleUse(nodes) <==> nodes <= 1
  {
    hide Run, TwiceOn;
    if nodes <= 1 {
      forall steps, i: nat, j: nat | i < j < |Run(Start(nodes), steps).wins|
        ensures Run(Start(nodes), steps).wins[i].message != Run(Start(nodes), steps).wins[j].message
      {
        OneWinPerNode(nodes, steps, i, j);
      }
    } else {
      TwoNodesUseTwice(nodes, "");
      assert Run(Start(nodes), TwiceOn("")).wins[0].message == Run(Start(nodes), TwiceOn("")).wins[1].message;
    }
  }
}
