/** Cursor movement shared by both single-select dialogs: the key events the
    terminal delivers, the wrap-around arithmetic of the arrow keys, and what a
    script of key reads leads a dialog's loop to. */
module Navigation {

  /** The keys the dialogs tell apart; every other key of the terminal is `Other`. */
  datatype Key = ArrowUp | ArrowDown | Enter | Other

  /** One call of the terminal's blocking key read: a key, or an I/O failure. */
  datatype Read = Press(key: Key) | ReadFailure

  /** Where a dialog's loop ends for a finite script of key reads: the cursor
      position confirmed with Enter, a failed read, or still waiting for a key
      when the script runs out. */
  datatype Decision = Confirm(index: nat) | Failure | Waiting

  /** What a dialog returns: the option confirmed, an I/O error, or nothing yet. */
  datatype Outcome<E> = Chosen(choice: E) | IoError | Blocked

  /** ArrowUp: `(i - 1 + n) mod n`, wrapping from the first row to the last. */
  function Up(i: nat, n: nat): (r: nat)
    requires i < n
    ensures r < n
    ensures i == 0 ==> r == n - 1
    ensures 0 < i ==> r == i - 1
  {
    (i - 1 + n) % n
  }

  /** ArrowDown: `(i + 1) mod n`, wrapping from the last row to the first. */
  function Down(i: nat, n: nat): (r: nat)
    requires i < n
    ensures r < n
    ensures i == n - 1 ==> r == 0
    ensures i < n - 1 ==> r == i + 1
  {
    (i + 1) % n
  }

  /** Up and Down undo each other. */
  lemma UpDownInverse(i: nat, n: nat)
    requires i < n
    ensures Down(Up(i, n), n) == i
    ensures Up(Down(i, n), n) == i
  {
  }

  /** The cursor position after one key; only the arrow keys move it. */
  function Navigate(k: Key, i: nat, n: nat): (r: nat)
    requires i < n
    ensures r < n
    ensures k != ArrowUp && k != ArrowDown ==> r == i
  {
    match k
    case ArrowUp => Up(i, n)
    case ArrowDown => Down(i, n)
    case _ => i
  }

  /** The cursor position after a sequence of keys, none of them confirming. */
  function NavigateAll(keys: seq<Key>, i: nat, n: nat): (r: nat)
    requires i < n
    ensures r < n
  {
    if keys == [] then i else NavigateAll(keys[1..], Navigate(keys[0], i, n), n)
  }

  /** The number of ArrowDown presses minus the number of ArrowUp presses. */
  function Net(keys: seq<Key>): int
  {
    (multiset(keys)[ArrowDown] as int) - (multiset(keys)[ArrowUp] as int)
  }

  lemma MulAtLeast(d: int, n: int)
    requires 1 <= d && 0 < n
    ensures n <= d * n
  {
  }

  lemma ModUnique(x: int, n: int, q: int, r: int)
    requires 0 < n && 0 <= r < n && x == q * n + r
    ensures x % n == r
  {
    var q', r' := x / n, x % n;
    var d := q - q';
    assert d * n == r' - r;
    if 1 <= d {
      MulAtLeast(d, n);
    } else if d <= -1 {
      MulAtLeast(-d, n);
    }
    assert d == 0;
  }

  lemma ModAddLeft(a: int, b: int, n: int)
    requires 0 < n
    ensures ((a % n) + b) % n == (a + b) % n
  {
    var q, r := (a + b) / n, (a + b) % n;
    assert a % n + b == (q - a / n) * n + r;
    ModUnique(a % n + b, n, q - a / n, r);
  }

  /** How far one key moves the cursor before wrapping. */
  function Step(k: Key): int
  {
    if k == ArrowDown then 1 else if k == ArrowUp then -1 else 0
  }

  /** The net count of a non-empty key sequence splits into its first key's
      step and the net count of the rest. */
  lemma NetCons(keys: seq<Key>)
    requires keys != []
    ensures Net(keys) == Step(keys[0]) + Net(keys[1..])
  {
    assert keys == [keys[0]] + keys[1..];
    assert multiset(keys) == multiset{keys[0]} + multiset(keys[1..]);
  }

  /** One key moves the cursor by its step, modulo `n`. */
  lemma NavigateIsStepMod(k: Key, i: nat, n: nat)
    requires i < n
    ensures Navigate(k, i, n) == (i + Step(k)) % n
  {
    if k == ArrowUp && i == 0 {
      ModUnique(i + Step(k), n, -1, n - 1);
    } else if k == ArrowDown && i == n - 1 {
      ModUnique(i + Step(k), n, 1, 0);
    } else {
      ModUnique(i + Step(k), n, 0, Navigate(k, i, n));
    }
  }

  /** The cursor is always the default index moved by the net number of
      ArrowDown presses, modulo the number of options. */
  lemma {:induction false} NavigateAllCongruent(keys: seq<Key>, i: nat, n: nat)
    requires i < n
    ensures NavigateAll(keys, i, n) == (i + Net(keys)) % n
  {
    if keys == [] {
      ModUnique(i, n, 0, i);
    } else {
      NetCons(keys);
      NavigateIsStepMod(keys[0], i, n);
      NavigateAllCongruent(keys[1..], Navigate(keys[0], i, n), n);
      ModAddLeft(i + Step(keys[0]), Net(keys[1..]), n);
    }
  }

  /** The key presses of a script in which every read delivers a key. */
  function Presses(keys: seq<Key>): (script: seq<Read>)
    ensures |script| == |keys|
    ensures forall j :: 0 <= j < |keys| ==> script[j] == Press(keys[j])
  {
    seq(|keys|, j requires 0 <= j < |keys| => Press(keys[j]))
  }

  /** The decision a dialog's loop reaches from cursor position `i`: the first
      failed read aborts, the first Enter confirms the current position, every
      other key moves the cursor (or not) and the loop reads again. */
  function Decide(n: nat, i: nat, script: seq<Read>): (d: Decision)
    requires i < n
    ensures d.Confirm? ==> d.index < n
    decreases |script|
  {
    if script == [] then Waiting
    else match script[0]
      case ReadFailure => Failure
      case Press(Enter) => Confirm(i)
      case Press(k) => Decide(n, Navigate(k, i, n), script[1..])
  }

  /** One read of a non-empty script, unfolded. */
  lemma DecideStep(n: nat, i: nat, script: seq<Read>)
    requires i < n && script != []
    ensures script[0] == ReadFailure ==> Decide(n, i, script) == Failure
    ensures script[0] == Press(Enter) ==> Decide(n, i, script) == Confirm(i)
    ensures script[0].Press? && script[0].key != Enter ==>
              Decide(n, i, script) == Decide(n, Navigate(script[0].key, i, n), script[1..])
  {
  }

  /** Navigating keys before the rest of a script only move the cursor: the
      loop then continues from the moved position. */
  lemma {:induction false} NavigateThenDecide(n: nat, i: nat, keys: seq<Key>, rest: seq<Read>)
    requires i < n
    requires Enter !in keys
    ensures Decide(n, i, Presses(keys) + rest) == Decide(n, NavigateAll(keys, i, n), rest)
    decreases |keys|
  {
    if keys != [] {
      var script := Presses(keys) + rest;
      assert script[0] == Press(keys[0]);
      assert script[1..] == Presses(keys[1..]) + rest;
      NavigateThenDecide(n, Navigate(keys[0], i, n), keys[1..], rest);
    } else {
      assert Presses(keys) + rest == rest;
    }
  }

  /** A script of navigating keys ended by Enter confirms the default index
      moved by the net number of ArrowDown presses, modulo `n`. */
  lemma ConfirmedIndex(n: nat, i: nat, keys: seq<Key>)
    requires i < n
    requires Enter !in keys
    ensures Decide(n, i, Presses(keys) + [Press(Enter)]) == Confirm((i + Net(keys)) % n)
  {
    NavigateThenDecide(n, i, keys, [Press(Enter)]);
    NavigateAllCongruent(keys, i, n);
  }

  /** The dialog's result for a decision. */
  function Resolve<E>(d: Decision, options: seq<E>): (o: Outcome<E>)
    requires d.Confirm? ==> d.index < |options|
    ensures o.Chosen? <==> d.Confirm?
    ensures o.IoError? <==> d.Failure?
    ensures d.Confirm? ==> o.choice == options[d.index]
  {
    match d
    case Confirm(j) => Chosen(options[j])
    case Failure => IoError
    case Waiting => Blocked
  }

  // The ArrowUp arithmetic of select.rs as written, in 32-bit signed integers.

  /** Two's-complement wrap-around to 32 bits: `as i32`, and `i32` addition in
      an optimised build. */
  function WrapI32(x: int): (r: int)
    ensures -0x8000_0000 <= r < 0x8000_0000
    ensures -0x8000_0000 <= x < 0x8000_0000 ==> r == x
  {
    (x + 0x8000_0000) % 0x1_0000_0000 - 0x8000_0000
  }

  /** Rust's `%` on signed integers: the remainder has the sign of the dividend. */
  function RemTrunc(a: int, b: int): (r: int)
    requires 0 < b
    ensures 0 <= a ==> r == a % b
    ensures a < 0 ==> -b < r <= 0
  {
    if 0 <= a then a % b else -((-a) % b)
  }

  /** `as usize` of an `i32` on a 64-bit target: negative values sign-extend. */
  function I32AsUsize(x: int): nat
    requires -0x8000_0000 <= x
  {
    if 0 <= x then x else 0x1_0000_0000_0000_0000 + x
  }

  /** ArrowUp as select.rs computes it: `((i as i32 - 1 + n as i32) % n as i32) as usize`,
      for lengths whose casts to `i32` are exact. It agrees with `Up` exactly
      when `i - 1 + n` fits in an `i32`; past that the sum wraps to a negative
      number and the cursor lands on 0 or far outside the options. */
  function UpAsWritten(i: nat, n: nat): (r: nat)
    requires i < n < 0x8000_0000
    ensures r == Up(i, n) <==> i - 1 + n < 0x8000_0000
    ensures r != Up(i, n) ==> r == 0 || n <= r
  {
    I32AsUsize(RemTrunc(WrapI32(i - 1 + n), n))
  }

  /** With 2^31 - 1 options and the cursor on the last one, `i - 1 + n`
      overflows `i32`; the wrapped result leaves the cursor outside the options. */
  lemma UpAsWrittenOverflows()
    ensures UpAsWritten(0x7FFF_FFFE, 0x7FFF_FFFF) >= 0x7FFF_FFFF
  {
  }
}
