/** The scene the tracer renders and the nearest-hit scan that `cast_ray` and
    `add_reflection` run over it. */
module Scanning {
  import opened Numeric
  import opened Vectors
  import opened Primitives

  /** The objects, the light sources with their strengths, and the bounce
      limit: the module-level globals of the tracer, passed explicitly. */
  datatype Scene = Scene(
    objects: seq<Primitive>,
    lights: seq<Vec3>,
    strengths: seq<real>,
    reflectionLimit: nat)
  {
    predicate Valid() {
      |lights| == |strengths|
      && forall i :: 0 <= i < |objects| ==> objects[i].WellFormed()
    }
  }

  /** The running minimum starts here, so a parameter of 10000 or more is never
      selected. */
  const FarAway := 10000.0

  /** `[object.intersects(ray) for object in objects]`. */
  function IntersectAll(objects: seq<Primitive>, ray: Ray, sqrt: real -> real): (traces: seq<Trace>)
    ensures |traces| == |objects|
    ensures forall i :: 0 <= i < |objects| ==> traces[i] == objects[i].Intersects(ray, sqrt)
  {
    if |objects| == 0 then []
    else IntersectAll(objects[..|objects| - 1], ray, sqrt) + [objects[|objects| - 1].Intersects(ray, sqrt)]
  }

  /** The two scans differ only in their hit test: the primary scan asks for a
      valid slot with a positive parameter, the reflected scan tests the near
      parameter for both slots. */
  datatype HitTest = PrimaryTest | ReflectedTest

  /** Either test passes only for a trace that offers a candidate. */
  predicate HitBy(tr: Trace, test: HitTest)
    ensures HitBy(tr, test) ==> Candidate(tr).Some?
  {
    match test
    case PrimaryTest => (tr.nearValid && tr.tNear > 0.0) || (tr.farValid && tr.tFar > 0.0)
    case ReflectedTest => (tr.nearValid && tr.tNear > 0.0) || (tr.farValid && tr.tNear > 0.0)
  }

  /** The parameter a trace offers to the running minimum. The flags are not
      consulted: the far parameter when the near one is not positive, else the
      near one when it is positive. */
  function Candidate(tr: Trace): (c: Option<real>)
    ensures c.Some? ==> 0.0 < c.value && (c.value == tr.tNear || c.value == tr.tFar)
    ensures c.None? <==> tr.tNear <= 0.0 && tr.tFar <= 0.0
  {
    if tr.tNear <= 0.0 && tr.tFar > 0.0 then Some(tr.tFar)
    else if tr.tNear > 0.0 then Some(tr.tNear)
    else None
  }

  /** `list.index(x)`: the first position holding a trace equal to `x`. */
  function IndexOf(traces: seq<Trace>, tr: Trace): (i: nat)
    requires tr in traces
    ensures i < |traces| && traces[i] == tr
    ensures forall j :: 0 <= j < i ==> traces[j] != tr
  {
    if traces[0] == tr then 0 else 1 + IndexOf(traces[1..], tr)
  }

  datatype ScanState = ScanState(minT: real, minIndex: nat, hit: bool)

  /** The scan's variables after the first `n` traces. */
  function Scan(traces: seq<Trace>, test: HitTest, n: nat): (st: ScanState)
    requires n <= |traces|
    ensures st.hit ==> 0 < n
    ensures 0 < |traces| ==> st.minIndex < |traces|
  {
    if n == 0 then ScanState(FarAway, 0, false)
    else
      var st := Scan(traces, test, n - 1);
      var tr := traces[n - 1];
      var hit := st.hit || HitBy(tr, test);
      match Candidate(tr)
      case Some(t) =>
        if t < st.minT then ScanState(t, IndexOf(traces, tr), hit) else ScanState(st.minT, st.minIndex, hit)
      case None => ScanState(st.minT, st.minIndex, hit)
  }

  /** Whether trace `j` offers a parameter at or below `t`. */
  predicate OffersAtMost(traces: seq<Trace>, j: int, t: real)
    requires 0 <= j < |traces|
  {
    Candidate(traces[j]).Some? && Candidate(traces[j]).value <= t
  }

  /** What the scan computes: `hit` is whether some trace passes the hit test;
      `minT` is the least candidate below 10000 (or 10000); when it is below
      10000, `minIndex` is the first trace offering it, and otherwise it is 0. */
  lemma {:induction false} ScanNearest(traces: seq<Trace>, test: HitTest, n: nat)
    requires n <= |traces|
    ensures var st := Scan(traces, test, n);
      (st.hit <==> exists j :: 0 <= j < n && HitBy(traces[j], test))
      && st.minT <= FarAway
      && (forall j :: 0 <= j < n && Candidate(traces[j]).Some? ==> st.minT <= Candidate(traces[j]).value)
      && (st.minT == FarAway ==> st.minIndex == 0)
      && (st.minT < FarAway ==>
            st.minIndex < n && Candidate(traces[st.minIndex]) == Some(st.minT)
            && forall j :: 0 <= j < st.minIndex ==> !OffersAtMost(traces, j, st.minT))
  {
    if n > 0 {
      ScanNearest(traces, test, n - 1);
      var prev := Scan(traces, test, n - 1);
      var tr := traces[n - 1];
      var st := Scan(traces, test, n);
      if Candidate(tr).Some? && Candidate(tr).value < prev.minT {
        var i := IndexOf(traces, tr);
        assert traces[n - 1] == tr;
        assert i <= n - 1;
        assert forall j :: 0 <= j < i ==> !OffersAtMost(traces, j, st.minT) by {
          forall j | 0 <= j < i
            ensures !OffersAtMost(traces, j, st.minT)
          {
            if Candidate(traces[j]).Some? {
              assert prev.minT <= Candidate(traces[j]).value;
            }
          }
        }
      }
      if st.hit {
        if !prev.hit {
          assert HitBy(traces[n - 1], test);
        }
      }
    }
  }

  /** The scan loop of `cast_ray` (with `PrimaryTest`) and of `add_reflection`
      (with `ReflectedTest`). */
  method NearestHit(traces: seq<Trace>, test: HitTest) returns (minT: real, minIndex: nat, hit: bool)
    ensures ScanState(minT, minIndex, hit) == Scan(traces, test, |traces|)
  {
    minT, minIndex, hit := FarAway, 0, false;
    for i := 0 to |traces|
      invariant ScanState(minT, minIndex, hit) == Scan(traces, test, i)
    {
      var tr := traces[i];
      if HitBy(tr, test) {
        hit := true;
      }
      if tr.tNear <= 0.0 && tr.tFar > 0.0 {
        if tr.tFar < minT {
          minIndex := IndexOf(traces, tr);
          minT := tr.tFar;
        }
      } else if tr.tNear > 0.0 {
        if tr.tNear < minT {
          minIndex := IndexOf(traces, tr);
          minT := tr.tNear;
        }
      }
    }
  }

  /** For a trace whose unflagged slots are zero the primary hit test agrees
      with the candidate rule: a trace is a hit exactly when it offers a
      parameter, and that parameter is positive. */
  lemma PrimaryHitIffCandidate(tr: Trace)
    requires ZeroFilled(tr)
    ensures HitBy(tr, PrimaryTest) <==> Candidate(tr).Some?
    ensures Candidate(tr).Some? ==> Candidate(tr).value > 0.0
  {
  }

  /** The reflected hit test is not the primary one: a trace flagging only a
      far crossing ahead (a ray leaving a sphere it starts inside) offers that
      crossing to the minimum but is not a hit. */
  lemma ReflectedTestIgnoresExitOnly(t: real)
    requires 0.0 < t
    ensures ZeroFilled(Trace(0.0, t, false, true))
    ensures Candidate(Trace(0.0, t, false, true)) == Some(t)
    ensures HitBy(Trace(0.0, t, false, true), PrimaryTest)
    ensures !HitBy(Trace(0.0, t, false, true), ReflectedTest)
  {
  }

  /** On the traces of real shapes, the primary scan hits exactly when some
      object offers a parameter, and a selected parameter is positive and is
      offered by the selected object. */
  lemma PrimaryScanOverScene(objects: seq<Primitive>, ray: Ray, sqrt: real -> real)
    ensures var traces := IntersectAll(objects, ray, sqrt);
      var st := Scan(traces, PrimaryTest, |traces|);
      (st.hit <==> exists j :: 0 <= j < |traces| && Candidate(traces[j]).Some?)
      && (st.minT < FarAway ==>
            0.0 < st.minT && st.minIndex < |objects|
            && Candidate(objects[st.minIndex].Intersects(ray, sqrt)) == Some(st.minT))
  {
    var traces := IntersectAll(objects, ray, sqrt);
    ScanNearest(traces, PrimaryTest, |traces|);
    var st := Scan(traces, PrimaryTest, |traces|);
    forall j | 0 <= j < |traces|
      ensures HitBy(traces[j], PrimaryTest) <==> Candidate(traces[j]).Some?
      ensures Candidate(traces[j]).Some? ==> Candidate(traces[j]).value > 0.0
    {
      PrimaryHitIffCandidate(traces[j]);
    }
  }
}
