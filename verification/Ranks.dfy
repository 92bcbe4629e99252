// When the silence of the cycle checker means that the calculator has no cycle either.
module Ranks {
  import opened Wrappers
  import opened Expr
  import opened Symbols
  import opened CheckDeps

  // The calculation of s asks for t.
  predicate Asks(cfg: Config, s: Sym, t: Sym) {
    s in cfg.graph && t in cfg.graph && t in Reads(cfg.graph[s])
  }

  predicate Chain(cfg: Config, c: seq<Sym>) {
    forall i | 0 <= i < |c| - 1 :: Asks(cfg, c[i], c[i + 1])
  }

  // The chain c leads from s to t; it may be s alone.
  predicate Leads(cfg: Config, c: seq<Sym>, s: Sym, t: Sym) {
    c != [] && c[0] == s && c[|c| - 1] == t && Chain(cfg, c)
  }

  ghost predicate Reaches(cfg: Config, s: Sym, t: Sym) {
    exists c :: Leads(cfg, c, s, t)
  }

  // The calculation of s asks for t, and a chain leads from t back to s.
  ghost predicate Closes(cfg: Config, s: Sym, t: Sym) {
    Asks(cfg, s, t) && Reaches(cfg, t, s)
  }

  ghost predicate NoCycle(cfg: Config) {
    forall s, t :: !Closes(cfg, s, t)
  }

  // ----- ranked graphs are the graphs without a cycle -----

  lemma {:induction false} RankFalls(cfg: Config, rank: Rank, c: seq<Sym>)
    requires Ranked(cfg, rank) && c != [] && Chain(cfg, c) && c[0] in cfg.graph
    ensures c[|c| - 1] in cfg.graph && rank[c[|c| - 1]] <= rank[c[0]]
  {
    if |c| > 1 {
      assert Asks(cfg, c[0], c[1]);
      RankFalls(cfg, rank, c[1..]);
    }
  }

  // The symbols the calculation of s asks for, directly or on the way.
  ghost function Asked(cfg: Config, s: Sym): set<Sym> {
    set t | t in cfg.graph && exists u <- cfg.graph :: Asks(cfg, s, u) && Reaches(cfg, u, t)
  }

  lemma AskedShrinks(cfg: Config, s: Sym, t: Sym)
    requires NoCycle(cfg) && Asks(cfg, s, t)
    ensures |Asked(cfg, t)| < |Asked(cfg, s)|
  {
    assert Leads(cfg, [t], t, t) && t in Asked(cfg, s);
    if t in Asked(cfg, t) {
      var u :| u in cfg.graph && Asks(cfg, t, u) && Reaches(cfg, u, t);
      assert Closes(cfg, t, u);
    }
    forall x <- Asked(cfg, t)
      ensures x in Asked(cfg, s)
    {
      var u :| u in cfg.graph && Asks(cfg, t, u) && Reaches(cfg, u, x);
      var c :| Leads(cfg, c, u, x);
      assert Leads(cfg, [t] + c, t, x);
    }
    assert Asked(cfg, t) < Asked(cfg, s);
    Smaller(Asked(cfg, t), Asked(cfg, s));
  }

  lemma {:induction false} Smaller(a: set<Sym>, b: set<Sym>)
    requires a < b
    ensures |a| < |b|
  {
    assert b == a + (b - a) && b - a != {};
  }

  // A graph can be ranked if and only if it has no cycle.
  lemma RankedExactly(cfg: Config)
    ensures (exists rank :: Ranked(cfg, rank)) <==> NoCycle(cfg)
  {
    if rank :| Ranked(cfg, rank) {
      forall s, t
        ensures !Closes(cfg, s, t)
      {
        if Closes(cfg, s, t) {
          var c :| Leads(cfg, c, t, s);
          RankFalls(cfg, rank, c);
          assert false;
        }
      }
    }
    if NoCycle(cfg) {
      var rank: Rank := map s | s in cfg.graph :: |Asked(cfg, s)|;
      forall s <- cfg.graph, t <- Reads(cfg.graph[s]) | t in cfg.graph
        ensures rank[t] < rank[s]
      {
        assert Asks(cfg, s, t);
        AskedShrinks(cfg, s, t);
      }
      assert Ranked(cfg, rank);
    }
  }

  // Symbols that ask for one another in turn, the last for the first, are a cycle.
  lemma CycleOf(cfg: Config, c: seq<Sym>)
    requires c != [] && forall i | 0 <= i < |c| :: Asks(cfg, c[i], Next(c, i))
    ensures !NoCycle(cfg)
  {
    hide Asks;
    var last := c[|c| - 1];
    assert Asks(cfg, c[|c| - 1], Next(c, |c| - 1));
    forall i | 0 <= i < |c| - 1
      ensures Asks(cfg, c[i], c[i + 1])
    {
      assert Asks(cfg, c[i], Next(c, i));
    }
    assert Leads(cfg, c, c[0], last);
    assert Closes(cfg, last, c[0]);
  }

  // ----- what the checker does not follow -----

  // Going round a cycle from behind i back to i.
  lemma Turned(cfg: Config, c: seq<Sym>, i: nat)
    requires i < |c| - 1 && Chain(cfg, c) && Asks(cfg, c[|c| - 1], c[0])
    ensures Closes(cfg, c[i], c[i + 1])
  {
    var a, b := c[..i + 1], c[i + 1..];
    assert b[0] == c[i + 1] && b[|b| - 1] == c[|c| - 1] && a[0] == c[0] && a[|a| - 1] == c[i];
    assert Chain(cfg, a + b) by { assert a + b == c; }
    ChainJoin(cfg, b, a);
    assert Leads(cfg, b + a, c[i + 1], c[i]);
    assert Asks(cfg, c[i], c[i + 1]);
  }

  lemma ChainJoin(cfg: Config, b: seq<Sym>, a: seq<Sym>)
    requires a != [] && b != [] && Chain(cfg, a + b) && Asks(cfg, b[|b| - 1], a[0])
    ensures Chain(cfg, b + a)
  {
    forall i | 0 <= i < |b + a| - 1
      ensures Asks(cfg, (b + a)[i], (b + a)[i + 1])
    {
      if i < |b| - 1 {
        assert (a + b)[|a| + i] == b[i] && (a + b)[|a| + i + 1] == b[i + 1];
      } else if i >= |b| {
        assert (a + b)[i - |b|] == a[i - |b|] && (a + b)[i - |b| + 1] == a[i - |b| + 1];
      }
    }
  }

  // A cycle that uses only edges the checker follows is one the checker would have found.
  lemma UnseenStep(cfg: Config, done: seq<Sym>, c: seq<Sym>) returns (s: Sym, t: Sym)
    requires Finished(cfg.graph, done) && forall x <- cfg.graph :: x in done
    requires c != [] && Chain(cfg, c) && Asks(cfg, c[|c| - 1], c[0])
    ensures Closes(cfg, s, t) && !Edge(cfg.graph, s, t)
  {
    NoCycleWhenFinished(cfg.graph, done, c);
    if !Edge(cfg.graph, c[|c| - 1], c[0]) {
      s, t := c[|c| - 1], c[0];
      assert Leads(cfg, c, t, s);
    } else {
      var i :| 0 <= i < |c| - 1 && !Edge(cfg.graph, c[i], c[i + 1]);
      s, t := c[i], c[i + 1];
      Turned(cfg, c, i);
    }
  }

  // After a silent sweep, the graph can be ranked if and only if no step that the checker does
  // not follow closes a cycle.
  lemma SilenceExactly(cfg: Config, done: seq<Sym>)
    requires Finished(cfg.graph, done) && forall s <- cfg.graph :: s in done
    ensures (exists rank :: Ranked(cfg, rank)) <==> !exists s, t :: Closes(cfg, s, t) && !Edge(cfg.graph, s, t)
  {
    RankedExactly(cfg);
    if s, t :| Closes(cfg, s, t) {
      var c :| Leads(cfg, c, t, s);
      var u, v := UnseenStep(cfg, done, c);
    }
  }

  // Where all the calculator reads, apart from implies, is followed by the checker: if and only
  // if no symbol is implied by an expression over symbols that ask for it.
  lemma ImpliesExactly(cfg: Config, done: seq<Sym>)
    requires Finished(cfg.graph, done) && forall s <- cfg.graph :: s in done
    requires forall s <- cfg.graph, t <- Reads(cfg.graph[s]) | t in cfg.graph ::
      t in Edges(cfg.graph[s]) + OptSyms(cfg.graph[s].implied)
    ensures (exists rank :: Ranked(cfg, rank))
      <==> !exists s <- cfg.graph, t <- OptSyms(cfg.graph[s].implied) :: t in cfg.graph && Reaches(cfg, t, s)
  {
    SilenceExactly(cfg, done);
    RankedExactly(cfg);
    if s, t :| Closes(cfg, s, t) && !Edge(cfg.graph, s, t) {
      assert t in OptSyms(cfg.graph[s].implied);
    }
    if s, t :| s in cfg.graph && t in OptSyms(cfg.graph[s].implied) && t in cfg.graph && Reaches(cfg, t, s) {
      assert Closes(cfg, s, t);
    }
  }
}
