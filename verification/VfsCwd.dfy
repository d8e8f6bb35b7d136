/** The printed path of the current directory leads back to it in every run from vfs_init. */
module VfsCwd {
  import opened Bytes
  import opened VfsModel
  import opened VfsRuns
  import opened VfsPaths
  import opened VfsStore

  /** Nodes keep their names and parents while others are added. */
  ghost predicate KeepsLinks(nodes: seq<Node>, r: seq<Node>) {
    |nodes| <= |r| && forall i :: 0 <= i < |nodes| ==> r[i].name == nodes[i].name && r[i].parent == nodes[i].parent
  }

  lemma TouchInKeepsLinks(nodes: seq<Node>, dir: nat, name: seq<byte>, data: Option<seq<byte>>)
    requires PoolOk(nodes) && dir < |nodes|
    ensures KeepsLinks(nodes, TouchIn(nodes, dir, name, data).0)
  {
  }

  lemma ApplyKeepsLinks(s: Fs, op: Op)
    requires FsOk(s)
    ensures KeepsLinks(s.nodes, Apply(s, op).0.nodes)
  {
    match op
    case OpTouch(p, d) =>
      if p != [] && TouchDir(s, p).Some? {
        TouchInKeepsLinks(s.nodes, TouchDir(s, p).value, TouchName(p), d);
      }
    case _ =>
  }

  lemma {:induction false} LegalUpKept(nodes: seq<Node>, r: seq<Node>, n: nat)
    requires PoolOk(nodes) && PoolOk(r) && KeepsLinks(nodes, r) && n < |nodes| && LegalUp(nodes, n)
    ensures LegalUp(r, n)
    decreases n
  {
    if n > 0 {
      assert NodeOk(nodes, n) && NodeOk(r, n);
      assert ParentOf(r, n) == ParentOf(nodes, n);
      LegalUpKept(nodes, r, ParentOf(nodes, n));
    }
  }

  lemma StepLegal(nodes: seq<Node>, cur: nat, seg: seq<byte>)
    requires PoolOk(nodes) && cur < |nodes| && LegalUp(nodes, cur) && seg != [] && SLASH !in seg
    ensures Step(nodes, cur, seg).Some? ==> LegalUp(nodes, Step(nodes, cur, seg).value)
  {
    if seg != DOT_NAME && seg != DOTDOT_NAME && Step(nodes, cur, seg).Some? {
      var k := Step(nodes, cur, seg).value;
      assert k in KidsOf(nodes, cur) && nodes[k].name == seg;
      assert NodeOk(nodes, k);
      assert ParentOf(nodes, k) == cur;
      assert LegalUp(nodes, k);
    } else {
      assert NodeOk(nodes, 0);
    }
  }

  lemma {:induction false} ResolveLegal(nodes: seq<Node>, cur: nat, segs: seq<seq<byte>>)
    requires PoolOk(nodes) && cur < |nodes| && LegalUp(nodes, cur)
    requires forall i :: 0 <= i < |segs| ==> segs[i] != [] && SLASH !in segs[i]
    ensures Resolve(nodes, cur, segs).Some? ==> LegalUp(nodes, Resolve(nodes, cur, segs).value)
    decreases |segs|
  {
    if segs != [] {
      StepLegal(nodes, cur, segs[0]);
      if Step(nodes, cur, segs[0]).Some? {
        ResolveLegal(nodes, Step(nodes, cur, segs[0]).value, segs[1..]);
      }
    }
  }

  lemma FindLegal(s: Fs, path: seq<byte>)
    requires FsOk(s) && LegalUp(s.nodes, s.cwd)
    ensures Find(s, path).Some? ==> LegalUp(s.nodes, Find(s, path).value)
  {
    if path != [] {
      ResolveLegal(s.nodes, if path[0] == SLASH then 0 else s.cwd, Pieces(path));
    }
  }

  /** A directory is entered only through names that resolve, so the current one can be named. */
  lemma ApplyKeepsLegal(s: Fs, op: Op)
    requires FsOk(s) && LegalUp(s.nodes, s.cwd) && op.IsText()
    ensures FsOk(Apply(s, op).0) && LegalUp(Apply(s, op).0.nodes, Apply(s, op).0.cwd)
  {
    ApplyKeeps(s, op);
    if op.OpChdir? {
      FindLegal(s, op.path);
      FindLegal(s, HOME);
    } else {
      ApplyKeepsLinks(s, op);
      LegalUpKept(s.nodes, Apply(s, op).0.nodes, s.cwd);
    }
  }

  lemma {:induction false} RunKeepsLegal(ss: seq<Fs>, ops: seq<Op>, n: nat)
    requires IsRun(ss, ops) && FsOk(ss[0]) && ss[0].cwd == 0 && n <= |ops|
    requires forall i :: 0 <= i < |ops| ==> ops[i].IsText()
    ensures FsOk(ss[n]) && LegalUp(ss[n].nodes, ss[n].cwd)
  {
    if n > 0 {
      RunKeepsLegal(ss, ops, n - 1);
      ApplyKeepsLegal(ss[n - 1], ops[n - 1]);
    }
  }

  /**
    In every run from vfs_init with mkdir names of at most 31 bytes: resolving the printed path, from
    anywhere, leads to the current directory, as long as that lies at most 16 levels deep.
   */
  lemma RunCwdRoundTrip(texts: seq<seq<byte>>, ss: seq<Fs>, ops: seq<Op>, n: nat, from: nat)
    requires IsTexts(texts) && IsRun(ss, ops) && ss[0] == Fs(InitialNodes(texts), 0) && n <= |ops|
    requires forall i :: 0 <= i < |ops| ==> ops[i].IsText() && ShortNames(ops[i])
    ensures FsOk(ss[n])
    ensures from < |ss[n].nodes| && Depth(ss[n].nodes, ss[n].cwd) <= 16 ==>
      Find(ss[n].(cwd := from), Cwd(ss[n])) == Some(ss[n].cwd)
  {
    InitialOk(texts);
    RunKeepsUnique(ss, ops, n);
    RunKeepsLegal(ss, ops, n);
    if from < |ss[n].nodes| && Depth(ss[n].nodes, ss[n].cwd) <= 16 {
      CwdRoundTrip(ss[n], from);
    }
  }
}
