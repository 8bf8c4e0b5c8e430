/** A finite picture of a Reactor `Flux`: the elements a subscriber receives
    through `onNext`, in order, followed by the terminal signal. */
module Reactive {
  import opened Wrappers
  import opened JavaTypes

  datatype Termination = Completed | Failed(error: JavaException)

  datatype Flux<T> = Flux(elements: seq<T>, termination: Termination)

  /** `Flux.map` with a mapper that may throw (`Failure`). Elements are mapped
      one at a time, in order; the first exception becomes the terminal
      `onError` and nothing after it is mapped or emitted. When no mapper call
      throws, every element yields one output and the upstream terminal signal
      is passed on unchanged. */
  function Map<A, B>(flux: Flux<A>, f: A -> Result<B, JavaException>): (r: Flux<B>)
    ensures |r.elements| <= |flux.elements|
    ensures forall i :: 0 <= i < |r.elements| ==> f(flux.elements[i]) == Success(r.elements[i])
    ensures |r.elements| == |flux.elements| ==> r.termination == flux.termination
    ensures |r.elements| < |flux.elements| ==>
              && f(flux.elements[|r.elements|]).Failure?
              && r.termination == Failed(f(flux.elements[|r.elements|]).error)
    decreases |flux.elements|
  {
    if flux.elements == [] then
      Flux([], flux.termination)
    else
      match f(flux.elements[0])
      case Failure(e) => Flux([], Failed(e))
      case Success(b) =>
        var rest := Map(Flux(flux.elements[1..], flux.termination), f);
        Flux([b] + rest.elements, rest.termination)
  }

  /** A mapper that never throws gives exactly one output per input and keeps
      the upstream terminal signal. */
  lemma MapTotal<A, B>(flux: Flux<A>, f: A -> Result<B, JavaException>)
    requires forall i :: 0 <= i < |flux.elements| ==> f(flux.elements[i]).Success?
    ensures |Map(flux, f).elements| == |flux.elements|
    ensures Map(flux, f).termination == flux.termination
  {
  }

  /** Mapping keeps no state between elements, so it distributes over
      concatenation: the second part is mapped exactly when the first part
      completes without an exception. */
  lemma {:induction false} MapAppend<A, B>(a: seq<A>, b: seq<A>, termination: Termination, f: A -> Result<B, JavaException>)
    ensures var ra := Map(Flux(a, Completed), f);
            var rb := Map(Flux(b, termination), f);
            Map(Flux(a + b, termination), f)
            == if ra.termination.Completed? then Flux(ra.elements + rb.elements, rb.termination) else ra
    decreases |a|
  {
    if a == [] {
      assert a + b == b;
    } else {
      assert (a + b)[1..] == a[1..] + b;
      match f(a[0])
      case Failure(e) =>
      case Success(x) =>
        MapAppend(a[1..], b, termination, f);
        var tail := Map(Flux(a[1..], Completed), f);
        var rb := Map(Flux(b, termination), f);
        if tail.termination.Completed? {
          assert [x] + (tail.elements + rb.elements) == ([x] + tail.elements) + rb.elements;
        }
    }
  }
}
