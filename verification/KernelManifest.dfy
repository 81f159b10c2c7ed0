/** The kernels of `--kernel-split=phases` and the manifest that lists them. */
module KernelManifest {
  import opened Prelude
  import opened Selector

  datatype Entry = Entry(selector: string, kernel: string)

  /** A segment: its helper's name when it is a guarded helper call, and whether its wrapper can be built. */
  datatype SegmentPlan = SegmentPlan(helper: Option<string>, wraps: bool)

  const ICO := Entry("___ico_sequent", "vl_ico_batch_gpu")
  const LEGACY := [Entry("___nba_comb", "vl_nba_comb_batch_gpu"), Entry("___nba_sequent", "vl_nba_sequent_batch_gpu")]

  function SegmentKernel(i: nat): string { "vl_nba_seg" + ToDecimal(i) + "_batch_gpu" }

  function SegmentEntry(s: SegmentPlan, i: nat): Entry {
    Entry(match s.helper
          case Some(name) => "___eval_nba_guarded_helper:" + name
          case None => "___eval_nba_inline_region:seg" + ToDecimal(i),
          SegmentKernel(i))
  }

  function Entries(plan: seq<SegmentPlan>, n: nat): seq<Entry>
    requires n <= |plan|
  {
    if n == 0 then [] else Entries(plan, n - 1) + [SegmentEntry(plan[n - 1], n - 1)]
  }

  /** How many wrappers are built before the first that fails. */
  function Built(plan: seq<SegmentPlan>): (n: nat)
    ensures n <= |plan|
  {
    if plan == [] || !plan[0].wraps then 0 else 1 + Built(plan[1..])
  }

  predicate Guarded(plan: Option<seq<SegmentPlan>>) { plan.Some? && Built(plan.value) == |plan.value| }

  function Kernels(entries: seq<Entry>): seq<string> {
    if entries == [] then [] else [entries[0].kernel] + Kernels(entries[1..])
  }

  lemma {:induction false} EntriesAt(plan: seq<SegmentPlan>, n: nat, k: nat)
    requires k < n <= |plan|
    ensures |Entries(plan, n)| == n && Entries(plan, n)[k] == SegmentEntry(plan[k], k)
  {
    hide SegmentEntry;
    if k < n - 1 { EntriesAt(plan, n - 1, k); } else if n > 1 { EntriesAt(plan, n - 1, 0); }
  }

  /** Every segment is listed in its place: by its helper when it has one, else by its number, with its own kernel. */
  lemma EntriesListSegments(plan: seq<SegmentPlan>, n: nat, k: nat)
    requires k < n <= |plan|
    ensures |Entries(plan, n)| == n
    ensures Entries(plan, n)[k].kernel == "vl_nba_seg" + ToDecimal(k) + "_batch_gpu"
    ensures Entries(plan, n)[k].selector ==
            if plan[k].helper.Some? then "___eval_nba_guarded_helper:" + plan[k].helper.value
            else "___eval_nba_inline_region:seg" + ToDecimal(k)
  {
    hide Entries, ToDecimal;
    EntriesAt(plan, n, k);
  }

  lemma EntryKernel(s: SegmentPlan, i: nat)
    ensures SegmentEntry(s, i).kernel == SegmentKernel(i)
  {
  }

  lemma NoKernels()
    ensures Kernels([]) == []
  {
  }

  /** The wrappers and kernels of the segments, up to the first wrapper that cannot be built. */
  method EmitSegments(segs: seq<SegmentPlan>) returns (used: bool, manifest: seq<Entry>, kernels: seq<string>)
    ensures used == (Built(segs) == |segs|)
    ensures manifest == Entries(segs, Built(segs)) && kernels == Kernels(manifest)
  {
    hide SegmentEntry, SegmentKernel, Kernels;
    manifest, kernels := [], [];
    NoKernels();
    used := true;
    var i := 0;
    assert segs[0..] == segs;
    while i < |segs|
      invariant i <= |segs| && used && Built(segs) == i + Built(segs[i..])
      invariant manifest == Entries(segs, i) && kernels == Kernels(manifest)
    {
      assert segs[i..][0] == segs[i] && segs[i..][1..] == segs[i + 1..];
      if !segs[i].wraps {
        used := false;
        break;
      }
      KernelsAppend(manifest, SegmentEntry(segs[i], i));
      EntryKernel(segs[i], i);
      kernels := kernels + [SegmentKernel(i)];
      manifest := manifest + [SegmentEntry(segs[i], i)];
      i := i + 1;
    }
    if i == |segs| { assert segs[i..] == []; }
  }

  /**
   * The manifest is the ico kernel and either every segment or the two legacy kernels, never a mixture; kernels of
   * segments built before a failing wrapper stay in the module, unlisted.
   */
  method EmitPhases(plan: Option<seq<SegmentPlan>>) returns (manifest: seq<Entry>, kernels: seq<string>)
    ensures manifest == [ICO] + if Guarded(plan) then Entries(plan.value, |plan.value|) else LEGACY
    ensures kernels == ["vl_eval_batch_gpu", ICO.kernel]
                       + (if plan.Some? then Kernels(Entries(plan.value, Built(plan.value))) else [])
                       + (if Guarded(plan) then [] else [LEGACY[0].kernel, LEGACY[1].kernel])
  {
    kernels := ["vl_eval_batch_gpu", ICO.kernel];
    manifest := [ICO];
    var used := false;
    if plan.Some? {
      var entries, emitted;
      used, entries, emitted := EmitSegments(plan.value);
      manifest := manifest + entries;
      kernels := kernels + emitted;
      if !used {
        while |manifest| > 1
          invariant manifest != [] && manifest[0] == ICO
        {
          manifest := manifest[..|manifest| - 1];
        }
      }
    }
    if !used {
      for k := 0 to |LEGACY|
        invariant manifest == [ICO] + LEGACY[..k]
        invariant kernels == ["vl_eval_batch_gpu", ICO.kernel]
                       + (if plan.Some? then Kernels(Entries(plan.value, Built(plan.value))) else [])
                       + [LEGACY[0].kernel, LEGACY[1].kernel][..k]
      {
        kernels := kernels + [LEGACY[k].kernel];
        manifest := manifest + [LEGACY[k]];
      }
    }
  }

  lemma {:induction false} KernelsAppend(a: seq<Entry>, e: Entry)
    ensures Kernels(a + [e]) == Kernels(a) + [e.kernel]
  {
    if a == [] {
      assert [e][1..] == [] && a + [e] == [e];
    } else {
      assert (a + [e])[1..] == a[1..] + [e];
      KernelsAppend(a[1..], e);
    }
  }

  /** Segment kernels have distinct names, so launching by manifest entry launches each segment once. */
  lemma SegmentKernelsAreDistinct(i: nat, j: nat)
    requires SegmentKernel(i) == SegmentKernel(j)
    ensures i == j
  {
    var p, q := "vl_nba_seg", "_batch_gpu";
    var a, b := ToDecimal(i), ToDecimal(j);
    assert |p + a + q| == |p + b + q| ==> |a| == |b|;
    assert (p + a + q)[|p|..|p| + |a|] == a && (p + b + q)[|p|..|p| + |b|] == b;
    BaseDigits(i, 10);
    BaseDigits(j, 10);
  }
}
