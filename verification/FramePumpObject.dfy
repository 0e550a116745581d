/** The frame pump as an object: each method is one lock section, run atomically. */
module FramePumpObject {
  import opened Wrappers
  import P = FramePump

  class FrameGrabber {
    const client: nat
    const frameAddr: nat
    const statusAddr: nat
    ghost const id: nat

    constructor (client: nat, frameAddr: nat, statusAddr: nat, ghost id: nat)
      ensures this.client == client && this.frameAddr == frameAddr && this.statusAddr == statusAddr && this.id == id
    {
      this.client, this.frameAddr, this.statusAddr, this.id := client, frameAddr, statusAddr, id;
    }

    ghost function Value(): P.Grabber
    {
      P.Grabber(id, client, frameAddr, statusAddr)
    }
  }

  class FramePump {
    const codec: P.Codec
    var grabber: FrameGrabber?
    var png: Option<P.Png>
    var raw: Option<P.Frame>
    var generation: nat
    var frameAddr: nat
    var statusAddr: nat
    /** Every grabber there has been, by identity. */
    ghost var made: seq<FrameGrabber>

    ghost function State(reader: P.Reader): P.Pump
      reads this
    {
      P.Pump(if grabber == null then None else Some(grabber.Value()), png, raw, generation, frameAddr, statusAddr,
             |made|, reader)
    }

    ghost predicate Valid()
      reads this
    {
      && (forall i :: 0 <= i < |made| ==> made[i].id == i)
      && (grabber != null ==> grabber in made)
    }

    constructor (codec: P.Codec, client: nat, frameAddr: nat, statusAddr: nat)
      ensures Valid() && State(P.Idle) == P.Start(Some(client), frameAddr, statusAddr) && this.codec == codec
    {
      this.codec := codec;
      var g := new FrameGrabber(client, frameAddr, statusAddr, 0);
      grabber := g;
      png, raw, generation := None, None, 0;
      this.frameAddr, this.statusAddr := frameAddr, statusAddr;
      made := [g];
    }

    method Rebind(client: Option<nat>)
      requires Valid()
      modifies this
      ensures Valid() && old(made) <= made
      ensures forall r :: State(r) == P.Step(codec, old(State(r)), P.Rebind(client))
    {
      if client.Some? {
        var g := new FrameGrabber(client.value, frameAddr, statusAddr, |made|);
        grabber := g;
        made := made + [g];
      } else {
        grabber := null;
        png := None;
        raw := None;
      }
      generation := generation + 1;
    }

    method SetBuffers(frameAddr: nat, statusAddr: nat)
      requires Valid()
      modifies this
      ensures Valid() && old(made) <= made
      ensures forall r :: State(r) == P.Step(codec, old(State(r)), P.SetBuffers(frameAddr, statusAddr))
    {
      this.frameAddr := frameAddr;
      this.statusAddr := statusAddr;
      if grabber != null {
        var g := new FrameGrabber(grabber.client, frameAddr, statusAddr, |made|);
        grabber := g;
        made := made + [g];
      }
    }

    /** The first lock section of the reader's loop. */
    method Snapshot() returns (g: FrameGrabber?)
      requires Valid()
      ensures g == grabber && (g != null ==> g in made)
    {
      g := grabber;
    }

    /** The second one: publish the frame unless the grabber was replaced or nothing changed. */
    method Publish(g: FrameGrabber, frame: P.Frame, pixels: P.Pixels, ghost reading: P.Reading)
      requires Valid() && g in made && reading.frame == frame && P.Pictured(reading) == pixels
      modifies `raw, `png, `generation
      ensures Valid()
      ensures State(P.Idle) == P.Step(codec, old(State(P.Read(g.Value(), reading))), P.Publish)
    {
      if grabber == g && raw != Some(frame) {
        raw := Some(frame);
        png := Some(codec(pixels));
        generation := generation + 1;
      }
    }

    method Latest() returns (p: Option<P.Png>)
      ensures p == png
    {
      p := png;
    }
  }
}
