/** The keyboard easter egg: the listener keeps the codes of the last ten keys
    pressed and fires when they are, in order, the Konami sequence. */
module Konami {

  /** The key codes that trigger the easter egg, in order. */
  const KonamiSequence: seq<string> :=
    ["ArrowUp", "ArrowUp", "ArrowDown", "ArrowDown", "ArrowLeft",
     "ArrowRight", "ArrowLeft", "ArrowRight", "KeyB", "KeyA"]

  /** How many codes the buffer keeps. */
  const WindowSize: nat := 10

  /** `slice(-n)` of an array: its last `n` elements, or all of it when
      shorter. `-0` is `0`, so `slice(-0)` keeps the whole array. */
  function SliceLast(s: seq<string>, n: nat): (r: seq<string>)
    ensures |r| == if n == 0 || |s| < n then |s| else n
    ensures s == s[..|s| - |r|] + r
  {
    if n == 0 || |s| <= n then s else s[|s| - n..]
  }

  /** The last `WindowSize` codes of a key history (all of it when shorter). */
  function Window(keys: seq<string>): (r: seq<string>)
    ensures |r| == if |keys| < WindowSize then |keys| else WindowSize
    ensures r == keys[|keys| - |r|..]
  {
    SliceLast(keys, WindowSize)
  }

  /** Appending a code to the window and trimming it again gives the window of
      the extended history: the buffer never needs more than its last ten codes. */
  lemma WindowSlide(keys: seq<string>, code: string)
    ensures SliceLast(Window(keys) + [code], WindowSize) == Window(keys + [code])
  {
  }

  /** The easter egg fires after a key exactly when the last ten keys of the
      history are the Konami sequence. */
  lemma FiresOnSequence(keys: seq<string>)
    ensures Window(keys) == KonamiSequence <==>
            |keys| >= WindowSize && keys[|keys| - WindowSize..] == KonamiSequence
  {
  }

  /** The keydown listener with its buffer of recent codes. */
  class KeyListener {
    var konamiCode: seq<string>
    /** Every code pressed so far. */
    ghost var history: seq<string>

    ghost predicate Valid()
      reads this
    {
      konamiCode == Window(history)
    }

    constructor ()
      ensures Valid() && history == [] && konamiCode == []
    {
      konamiCode := [];
      history := [];
    }

    /** One keydown with code `code`; `fired` says whether the easter egg is activated. */
    method KeyDown(code: string) returns (fired: bool)
      requires Valid()
      modifies this
      ensures Valid() && history == old(history) + [code]
      ensures fired <==> |history| >= WindowSize && history[|history| - WindowSize..] == KonamiSequence
    {
      WindowSlide(history, code);
      konamiCode := konamiCode + [code];
      konamiCode := SliceLast(konamiCode, WindowSize);
      history := history + [code];
      FiresOnSequence(history);
      fired := konamiCode == KonamiSequence;
    }
  }
}
