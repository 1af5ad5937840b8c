/** The channel pipeline as seen by the negotiating handler: an ordered list
    of stages in which the handler can insert a stage directly after itself
    and remove itself. The handler is not sharable, so it sits in a
    pipeline at most once: a pipeline is either the stages before it and
    the stages after it, or, once it has left, just a list of stages. */
module Pipeline {
  import opened Types

  datatype Pipe =
    | Attached(before: seq<StageId>, after: seq<StageId>)
    | Detached(stages: seq<StageId>)

  /** The stages of `p`, first to last, the handler included while it is
      attached. */
  function Stages(p: Pipe): seq<StageId>
  {
    match p
    case Attached(before, after) => before + [ExtensionHandler] + after
    case Detached(stages) => stages
  }

  /** Inserts `x` directly after the handler, as the pipeline's `addAfter`
      does with the handler's own name. A pipeline the handler has left
      refuses the insertion and stays as it is. */
  function AddAfterHandler(p: Pipe, x: StageId): Pipe
  {
    match p
    case Attached(before, after) => Attached(before, [x] + after)
    case Detached(_) => p
  }

  /** As a list of stages: `x` lands right after the handler, every
      other stage keeps its place relative to it. */
  lemma AddAfterHandlerPlaces(p: Pipe, x: StageId)
    requires p.Attached?
    ensures var q := Stages(AddAfterHandler(p, x));
      var i := |p.before|;
      && |q| == |Stages(p)| + 1
      && q[i] == ExtensionHandler
      && q[i + 1] == x
      && q[..i + 1] == Stages(p)[..i + 1]
      && q[i + 2..] == Stages(p)[i + 1..]
  {
    var q := Stages(AddAfterHandler(p, x));
    var i := |p.before|;
    assert q == Stages(p)[..i + 1] + [x] + Stages(p)[i + 1..];
  }

  /** Removes the handler, as the pipeline's `remove` does, keeping every
      other stage in order; once removed it cannot be removed again. */
  function RemoveHandler(p: Pipe): (q: Pipe)
    ensures q.Detached?
    ensures p.Attached? ==> Stages(q) == p.before + p.after
    ensures p.Detached? ==> q == p
  {
    match p
    case Attached(before, after) => Detached(before + after)
    case Detached(_) => p
  }

  /** The stages installed for `exts`, as they stand after the handler:
      the last extension's encoder and decoder first, the first extension's
      encoder and decoder last. */
  function CodecStages(exts: seq<Ext>): seq<StageId>
  {
    if exts == [] then []
    else
      var e := exts[|exts| - 1];
      [e.Encoder(), e.Decoder()] + CodecStages(exts[..|exts| - 1])
  }

  /** Installs the codec stages of `exts` one extension after the other:
      for each, its decoder directly after the handler, then its encoder
      directly after the handler. */
  function InstallCodecs(p: Pipe, exts: seq<Ext>): Pipe
  {
    if exts == [] then p
    else
      var e := exts[|exts| - 1];
      AddAfterHandler(AddAfterHandler(InstallCodecs(p, exts[..|exts| - 1]), e.Decoder()), e.Encoder())
  }

  /** Position by position: the stages after the handler are
      `enc_n, dec_n, ..., enc_1, dec_1`, each encoder just before its
      decoder. */
  lemma {:induction false} CodecStagesAt(exts: seq<Ext>, k: nat)
    requires k < |exts|
    ensures |CodecStages(exts)| == 2 * |exts|
    ensures CodecStages(exts)[2 * k] == exts[|exts| - 1 - k].Encoder()
    ensures CodecStages(exts)[2 * k + 1] == exts[|exts| - 1 - k].Decoder()
  {
    var n := |exts| - 1;
    if k > 0 {
      CodecStagesAt(exts[..n], k - 1);
      assert exts[..n][n - 1 - (k - 1)] == exts[n - k];
    } else if n > 0 {
      CodecStagesAt(exts[..n], 0);
    }
  }

  /** No codec stage is the handler. */
  lemma {:induction false} CodecStagesNotHandler(exts: seq<Ext>)
    ensures ExtensionHandler !in CodecStages(exts)
  {
    if exts != [] {
      CodecStagesNotHandler(exts[..|exts| - 1]);
    }
  }

  /** Installing the codecs of `exts` puts exactly `CodecStages(exts)`
      directly after the handler and leaves every other stage in place; a
      pipeline the handler has left does not change. */
  lemma {:induction false} InstallLayout(p: Pipe, exts: seq<Ext>)
    ensures p.Detached? ==> InstallCodecs(p, exts) == p
    ensures p.Attached? ==> InstallCodecs(p, exts) == Attached(p.before, CodecStages(exts) + p.after)
  {
    if exts != [] {
      var n := |exts| - 1;
      var e := exts[n];
      InstallLayout(p, exts[..n]);
      if p.Attached? {
        var c := CodecStages(exts[..n]);
        assert [e.Encoder()] + ([e.Decoder()] + (c + p.after)) == CodecStages(exts) + p.after;
      }
    }
  }

  /** Installing the codecs of `exts` and then removing the handler leaves
      the codec stages exactly where the handler stood. */
  lemma InstallThenRemove(p: Pipe, exts: seq<Ext>)
    requires p.Attached?
    ensures Stages(RemoveHandler(InstallCodecs(p, exts))) == p.before + CodecStages(exts) + p.after
  {
    InstallLayout(p, exts);
  }

  /** After the handler has installed codecs and removed itself, it is no
      longer anywhere in the pipeline: it retires exactly once. */
  lemma RemovedForGood(p: Pipe, exts: seq<Ext>)
    requires p.Attached?
    requires ExtensionHandler !in p.before + p.after
    ensures ExtensionHandler !in Stages(RemoveHandler(InstallCodecs(p, exts)))
  {
    InstallThenRemove(p, exts);
    CodecStagesNotHandler(exts);
    assert ExtensionHandler !in p.before && ExtensionHandler !in p.after by {
      assert forall x :: x in p.before ==> x in p.before + p.after;
      assert forall x :: x in p.after ==> x in p.before + p.after;
    }
  }
}
