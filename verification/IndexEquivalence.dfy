/** The C server and the PHP server answer every run of requests alike. */
module IndexEquivalence {
  import opened Common
  import opened IndexModel
  import opened IndexTheorems
  import opened IndexService
  import C = IndexC
  import Php = IndexPhp

  /** The replies prescribed by the model. */
  ghost function Prescribed(cfg: Config, s: Index, rs: seq<Timed>): (r: seq<Reply>)
    decreases |rs|
  {
    if rs == [] then []
    else Prescribed(cfg, s, rs[..|rs| - 1]) +
         [Handle(cfg, Run(cfg, s, rs[..|rs| - 1]), rs[|rs| - 1].request, rs[|rs| - 1].now).1]
  }

  /** Both servers reply as the model prescribes. */
  method Serve(cfg: Config, rs: seq<Timed>) returns (c: seq<Reply>, php: seq<Reply>)
    requires UniqueVips(cfg.vips) && cfg.ttl < TWO64
    requires forall i :: 0 <= i < |rs| ==> rs[i].now < TWO64
    requires Ordered(rs)
    ensures c == php == Prescribed(cfg, EMPTY_INDEX, rs) && |c| == |rs|
  {
    c, php := [], [];
    var left := new C.Server(cfg);
    var right := new Php.Server(cfg);
    var i := 0;
    while i < |rs|
      invariant 0 <= i <= |rs| && fresh(left) && fresh(right) && left.cfg == cfg
      invariant left.Valid() && right.Configured(cfg)
      invariant forall k :: i <= k < |rs| ==> left.Clocked(rs[k].now)
      invariant left.Model() == right.Model() == Run(cfg, EMPTY_INDEX, rs[..i])
      invariant c == php == Prescribed(cfg, EMPTY_INDEX, rs[..i]) && |c| == i
    {
      ghost var before := left.Model();
      var a := left.Dispatch(rs[i].request, rs[i].now);
      var b := right.Dispatch(rs[i].request, rs[i].now, cfg);
      assert rs[..i + 1][..i] == rs[..i];
      c, php := c + [a], php + [b];
      i := i + 1;
    }
    assert rs[..i] == rs;
  }

  /** Both servers, started with the same configuration and given the same requests under a clock that does not
      run backwards, reply alike, as the model prescribes, and every time as the history demands. */
  method ServeBoth(cfg: Config, rs: seq<Timed>) returns (c: seq<Reply>, php: seq<Reply>)
    requires UniqueVips(cfg.vips) && cfg.ttl < TWO64
    requires forall i :: 0 <= i < |rs| ==> rs[i].now < TWO64
    requires Ordered(rs)
    ensures c == php && |c| == |rs|
    ensures c == Prescribed(cfg, EMPTY_INDEX, rs) && AllRight(cfg, rs, c)
  {
    c, php := Serve(cfg, rs);
    PrescribedRight(cfg, rs);
  }

  lemma {:induction false} PrescribedReplies(cfg: Config, rs: seq<Timed>, k: nat)
    requires k < |rs|
    ensures |Prescribed(cfg, EMPTY_INDEX, rs)| == |rs|
    ensures Prescribed(cfg, EMPTY_INDEX, rs)[k] == ReplyTo(cfg, rs, k)
    decreases |rs|
  {
    if |rs| > 1 {
      PrescribedReplies(cfg, rs[..|rs| - 1], if k < |rs| - 1 then k else 0);
    }
  }

  lemma PrescribedRight(cfg: Config, rs: seq<Timed>)
    requires Ordered(rs) && |Prescribed(cfg, EMPTY_INDEX, rs)| == |rs|
    ensures AllRight(cfg, rs, Prescribed(cfg, EMPTY_INDEX, rs))
  {
    forall k | 0 <= k < |rs|
      ensures Prescribed(cfg, EMPTY_INDEX, rs)[k] == ReplyTo(cfg, rs, k)
    {
      PrescribedReplies(cfg, rs, k);
    }
    AllRepliesRight(cfg, rs, Prescribed(cfg, EMPTY_INDEX, rs));
  }
}
