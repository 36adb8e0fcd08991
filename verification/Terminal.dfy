/** peachos_terminal_readline: a line edited in place while its keys come in. */
module Terminal {
  import opened Memory
  import opened Strings

  const CARRIAGE_RETURN: Byte := '\r' as int
  const BACKSPACE: Byte := 8

  // ---------------------------------------------------------------------------
  // What the typed keys mean.
  // ---------------------------------------------------------------------------

  /** One answer of peachos_getkey. Zero says that no key is waiting. */
  function Edit(held: seq<Byte>, key: Byte): seq<Byte> {
    if key == 0 then held
    else if key == BACKSPACE then (if held == [] then [] else held[..|held| - 1])
    else held + [key]
  }

  /** The line after a sequence of answers. */
  function Held(keys: seq<Byte>): seq<Byte> {
    if keys == [] then [] else Edit(Held(keys[..|keys| - 1]), keys[|keys| - 1])
  }

  /** The line is finished after `n` answers: it is full, or the next one is a carriage return. */
  predicate Finished(keys: seq<Byte>, limit: nat, n: nat)
    requires n <= |keys|
  {
    |Held(keys[..n])| == limit || (n < |keys| && keys[n] == CARRIAGE_RETURN)
  }

  ghost predicate NotFinished(keys: seq<Byte>, limit: nat, from: nat, end: nat)
    requires end <= |keys|
  {
    forall n: nat :: from <= n < end ==> !Finished(keys, limit, n)
  }

  lemma HeldOneMore(keys: seq<Byte>, n: nat)
    requires n < |keys|
    ensures Held(keys[..n + 1]) == Edit(Held(keys[..n]), keys[n])
  {
    assert keys[..n + 1][..n] == keys[..n];
  }

  // What those keys mean, without the fold: text is held as it is typed, a backspace takes back the character
  // before it and nothing from an empty line, and a zero is no key.

  /** Characters that are neither keys of their own nor the answer for no key. */
  predicate IsText(t: seq<Byte>) {
    forall i :: 0 <= i < |t| ==> t[i] != 0 && t[i] != 8 && t[i] != 13
  }

  lemma {:induction false} TextIsHeld(t: seq<Byte>)
    requires IsText(t)
    ensures Held(t) == t
  {
    if t != [] {
      TextIsHeld(t[..|t| - 1]);
    }
  }

  lemma HeldAndKey(keys: seq<Byte>, key: Byte)
    ensures Held(keys + [key]) == Edit(Held(keys), key)
  {
    assert (keys + [key])[..|keys|] == keys;
  }

  /** What comes later is typed into the line that is held. */
  lemma {:induction false} HeldDecides(a: seq<Byte>, b: seq<Byte>, rest: seq<Byte>)
    requires Held(a) == Held(b)
    ensures Held(a + rest) == Held(b + rest)
  {
    if rest == [] {
      assert a + rest == a && b + rest == b;
    } else {
      var n := |rest| - 1;
      HeldDecides(a, b, rest[..n]);
      HeldAndKey(a + rest[..n], rest[n]);
      HeldAndKey(b + rest[..n], rest[n]);
      assert a + rest[..n] + [rest[n]] == a + rest && b + rest[..n] + [rest[n]] == b + rest;
    }
  }

  lemma BackspaceTakesBack(before: seq<Byte>, c: Byte, rest: seq<Byte>)
    requires IsText([c])
    ensures Held(before + [c, 8] + rest) == Held(before + rest)
  {
    assert [c][0] != 0 && [c][0] != 8;
    HeldAndKey(before, c);
    HeldAndKey(before + [c], 8);
    assert before + [c, 8] == before + [c] + [8];
    HeldDecides(before + [c, 8], before, rest);
  }

  lemma BackspaceAtStart(rest: seq<Byte>)
    ensures Held([8] + rest) == Held(rest)
  {
    HeldAndKey([], 8);
    assert [] + [8] == [8] && [] + rest == rest;
    HeldDecides([8], [], rest);
  }

  lemma ZeroIsNoKey(before: seq<Byte>, rest: seq<Byte>)
    ensures Held(before + [0] + rest) == Held(before + rest)
  {
    HeldAndKey(before, 0);
    HeldDecides(before + [0], before, rest);
  }

  lemma {:induction false} HeldHasNoNul(keys: seq<Byte>)
    ensures NoNul(Held(keys))
  {
    if keys != [] {
      HeldHasNoNul(keys[..|keys| - 1]);
    }
  }

  /** A line that is not finished is not full, and the next key does not end it. */
  lemma NotFinishedMeans(keys: seq<Byte>, limit: nat, end: nat)
    requires end <= |keys| && NotFinished(keys, limit, 0, end)
    ensures forall n: nat :: n < end ==> keys[n] != 13 && |Held(keys[..n])| != limit
  {
    forall n: nat | n < end ensures keys[n] != 13 && |Held(keys[..n])| != limit {
      assert !Finished(keys, limit, n);
    }
  }

  // ---------------------------------------------------------------------------
  // The routine.
  // ---------------------------------------------------------------------------

  /** peachos_getkey_block: polls until there is a key. `keys` are the answers to come; when they run
      out, the caller is still waiting. */
  method GetKeyBlock(keys: seq<Byte>, from: nat) returns (waiting: bool, val: Byte, next: nat)
    requires from <= |keys|
    ensures from <= next <= |keys| && (waiting ==> next == |keys|)
    ensures forall n :: from <= n < (if waiting then next else next - 1) ==> keys[n] == 0
    ensures !waiting ==> next > from && val == keys[next - 1] != 0
  {
    next := from;
    while next < |keys|
      invariant from <= next <= |keys| && forall n :: from <= n < next ==> keys[n] == 0
    {
      val := keys[next];
      next := next + 1;
      if val != 0 {
        return false, val, next;
      }
    }
    waiting, val := true, 0;
  }

  /** Polling in vain changes neither the line nor whether it is finished. */
  lemma {:induction false} ZerosHoldLine(keys: seq<Byte>, limit: nat, from: nat, end: nat)
    requires from <= end <= |keys| && forall n :: from <= n < end ==> keys[n] == 0
    requires |Held(keys[..from])| < limit
    ensures Held(keys[..end]) == Held(keys[..from])
    ensures NotFinished(keys, limit, from, end)
    decreases end - from
  {
    if from < end {
      HeldOneMore(keys, from);
      ZerosHoldLine(keys, limit, from + 1, end);
    }
  }

  /** The line so far stands at the start of the buffer, and was never finished. */
  ghost predicate Typing(out: seq<Byte>, keys: seq<Byte>, limit: nat, used: nat, i: int) {
    var typing :=
      && used <= |keys| && 0 <= i <= limit && i <= |out|
      && out[..i] == Held(keys[..used])
      && NotFinished(keys, limit, 0, used);
    typing
  }

  /** peachos_terminal_readline: takes keys until the line first is finished, and leaves it,
      NUL-terminated, in the first `max` places of `out`; `stop` is the point where it was finished.
      The call returns exactly if the line is ever finished, and otherwise waits. */
  method ReadLine(out: array<Byte>, max: nat, keys: seq<Byte>) returns (returned: bool, ghost stop: nat)
    requires 1 <= max <= out.Length
    modifies out
    ensures out[max..] == old(out[max..])
    ensures stop <= |keys| && NotFinished(keys, max - 1, 0, stop)
    ensures forall n: nat :: n < stop ==> keys[n] != 13 && |Held(keys[..n])| != max - 1
    ensures returned <==> |Held(keys[..stop])| == max - 1 || (stop < |keys| && keys[stop] == 13)
    ensures !returned ==> stop == |keys|
    ensures returned ==>
              var line := Held(keys[..stop]);
              |line| < max && out[..|line|] == line && out[|line|] == 0 && CString(out[..]) == line
  {
    ghost var limit := max - 1;
    var i, used := 0, 0;
    stop := 0;
    while i < max - 1
      invariant Typing(out[..], keys, limit, used, i)
      invariant stop == used && out[max..] == old(out[max..])
      decreases |keys| - used
    {
      var waiting, c, next := GetKeyBlock(keys, used);
      stop := if waiting then next else next - 1;
      PolledInVain(out[..], keys, limit, used, stop, i);
      if waiting {
        NotFinishedMeans(keys, limit, stop);
        return false, stop;
      }
      if c == CARRIAGE_RETURN {
        break;
      }
      ghost var before, i0 := out[..], i;
      if c == BACKSPACE && i == 0 {
        i := i - 1;
      } else if c == BACKSPACE && i > 0 {
        i := i - 1;
        out[i] := 0;
        i := i - 1;
      } else if c != BACKSPACE {
        out[i] := c;
      }
      i := i + 1;
      KeyTyped(before, i0, keys, limit, stop, out[..], i);
      used := next;
      stop := used;
    }
    LineHeld(out[..], keys, limit, stop, i);
    NotFinishedMeans(keys, limit, stop);
    out[i] := 0;
    CStringPrefix(out[..], i);
    returned := true;
  }

  /** A program reads a line that is typed and ended with a carriage return: the line is the text. */
  method ReadTyped(out: array<Byte>, max: nat, t: seq<Byte>) returns (returned: bool)
    requires 1 <= max <= out.Length && IsText(t) && |t| <= max - 1
    modifies out
    ensures returned && out[..|t|] == t && out[|t|] == 0 && CString(out[..]) == t && out[max..] == old(out[max..])
  {
    ghost var stop;
    returned, stop := ReadLine(out, max, t + [13]);
    TypedThenReturn(t, max - 1, stop);
  }

  /** No prefix of the text finishes the line before the carriage return does, but the whole text may fill it. */
  lemma TypedThenReturn(t: seq<Byte>, limit: nat, stop: nat)
    requires IsText(t) && |t| <= limit && stop <= |t| + 1
    requires forall n: nat :: n < stop ==> (t + [13])[n] != 13 && |Held((t + [13])[..n])| != limit
    ensures stop <= |t| && Held((t + [13])[..stop]) == t[..stop]
    ensures stop == |t| <==> |Held((t + [13])[..stop])| == limit || (t + [13])[stop] == 13
    ensures stop < |t| ==> |Held((t + [13])[..stop])| < limit
  {
    assert (t + [13])[|t|] == 13;
    assert (t + [13])[..stop] == t[..stop] && IsText(t[..stop]);
    TextIsHeld(t[..stop]);
  }

  /** Waiting for a key leaves the line as it is, and unfinished. */
  lemma PolledInVain(out: seq<Byte>, keys: seq<Byte>, limit: nat, used: nat, stop: nat, i: int)
    requires Typing(out, keys, limit, used, i) && i < limit && used <= stop <= |keys|
    requires forall n :: used <= n < stop ==> keys[n] == 0
    ensures Typing(out, keys, limit, stop, i)
  {
    ZerosHoldLine(keys, limit, used, stop);
  }

  /** A key that does not end the line is typed into the buffer. */
  lemma KeyTyped(out: seq<Byte>, i: int, keys: seq<Byte>, limit: nat, stop: nat, out': seq<Byte>, i': int)
    requires Typing(out, keys, limit, stop, i) && i < limit < |out|
    requires stop < |keys| && keys[stop] != 0 && keys[stop] != CARRIAGE_RETURN
    requires if keys[stop] != BACKSPACE then out' == out[i := keys[stop]] && i' == i + 1
             else if i == 0 then out' == out && i' == 0
             else out' == out[i - 1 := 0] && i' == i - 1
    ensures Typing(out', keys, limit, stop + 1, i')
  {
    HeldOneMore(keys, stop);
  }

  lemma LineHeld(out: seq<Byte>, keys: seq<Byte>, limit: nat, stop: nat, i: int)
    requires Typing(out, keys, limit, stop, i)
    ensures 0 <= i <= limit && i <= |out| && |Held(keys[..stop])| == i && out[..i] == Held(keys[..stop]) && NoNul(out[..i])
    ensures NotFinished(keys, limit, 0, stop)
  {
    HeldHasNoNul(keys[..stop]);
  }
}
