/** The serial link to the modem, as the scanning code sees it.

    What arrives is a queue of events: a received byte, or a `Gap`, a pause
    long enough for whichever timeout is running at that moment to fire. The
    timeout consumes the pause, so a `Gap` is taken off the queue by the wait
    that gives up on it. Once the queue is exhausted the modem stays silent:
    every further wait sees a `Gap`. What is written is appended to `output`. */
module Transport {

  datatype Event = Byte(c: char) | Gap

  /** The event the next poll of the link sees. */
  function Head(input: seq<Event>): Event
  {
    if input == [] then Gap else input[0]
  }

  /** The queue once that event has been taken. */
  function Tail(input: seq<Event>): seq<Event>
  {
    if input == [] then [] else input[1..]
  }

  /** A run of received bytes, with no pause inside it. */
  function Bytes(s: string): (r: seq<Event>)
    ensures |r| == |s|
    ensures forall i :: 0 <= i < |s| ==> r[i] == Byte(s[i])
  {
    seq(|s|, i requires 0 <= i < |s| => Byte(s[i]))
  }

  /** Line ending written by `println`. */
  const CRLF: string := "\r\n"

  class SerialLink {
    var input: seq<Event>
    var output: string

    constructor (script: seq<Event>)
      ensures input == script && output == []
    {
      input := script;
      output := [];
    }

    /** `available()`: looks at the next event without taking it. */
    method Peek() returns (e: Event)
      ensures e == Head(input)
    {
      e := Head(input);
    }

    /** `read()` of a byte, or a wait that times out on a pause. */
    method Receive() returns (e: Event)
      modifies this
      ensures e == Head(old(input)) && input == Tail(old(input))
      ensures output == old(output)
    {
      e := Head(input);
      input := Tail(input);
    }

    /** `print`. */
    method Print(s: string)
      modifies this
      ensures output == old(output) + s && input == old(input)
    {
      output := output + s;
    }

    /** `println`. */
    method Println(s: string)
      modifies this
      ensures output == old(output) + s + CRLF && input == old(input)
    {
      output := output + s + CRLF;
    }
  }
}
