/** The parent's name: UTF-16 units that must spell a file name and nothing but one. */
module Names {

  predicate High(u: nat) { 0xD800 <= u < 0xDC00 }

  predicate Low(u: nat) { 0xDC00 <= u < 0xE000 }

  /** `String::from_utf16` takes the units: surrogates come in pairs, high before low. */
  predicate WellFormed(units: seq<nat>) {
    if units == [] then true
    else if High(units[0]) then |units| >= 2 && Low(units[1]) && WellFormed(units[2..])
    else !Low(units[0]) && WellFormed(units[1..])
  }

  /** The parent's file name, or not one: no path, and no directory. */
  predicate IsFileName(name: seq<nat>) {
    && name != []
    && WellFormed(name)
    && (forall u :: u in name ==> u != '/' as int && u != '\\' as int && u != ':' as int)
    && name != ['.' as int] && name != ['.' as int, '.' as int]
  }

  // ---- What is well formed ----

  /** A character's number: no surrogate, and at most seventeen planes. */
  predicate Scalar(c: nat) { c < 0xD800 || 0xE000 <= c < 0x11_0000 }

  /** A character as UTF-16 writes it: one unit, or a pair that holds ten bits each. */
  function Encoded(c: nat): seq<nat>
    requires Scalar(c)
  {
    if c < 0x1_0000 then [c] else [0xD800 + (c - 0x1_0000) / 1024, 0xDC00 + (c - 0x1_0000) % 1024]
  }

  function EncodedAll(text: seq<nat>): seq<nat>
    requires forall c :: c in text ==> Scalar(c)
  {
    if text == [] then [] else Encoded(text[0]) + EncodedAll(text[1..])
  }

  ghost predicate Encodes(text: seq<nat>, units: seq<nat>) {
    (forall c :: c in text ==> Scalar(c)) && EncodedAll(text) == units
  }

  /** Units are taken if and only if they are the encoding of some text. */
  lemma {:induction false} WellFormedIsEncoded(units: seq<nat>)
    requires forall u :: u in units ==> u < 0x1_0000
    ensures WellFormed(units) <==> exists text :: Encodes(text, units)
    decreases |units|
  {
    if WellFormed(units) {
      var text := Decoded(units);
    }
    if text :| Encodes(text, units) {
      EncodedIsWellFormed(text);
    }
  }

  lemma InRest(units: seq<nat>, n: nat)
    requires n <= |units|
    ensures forall u :: u in units[n..] ==> u in units
  {
    forall u | u in units[n..] ensures u in units {
      var i :| 0 <= i < |units[n..]| && units[n..][i] == u;
      assert units[n + i] == u;
    }
  }

  lemma {:induction false} Decoded(units: seq<nat>) returns (text: seq<nat>)
    requires WellFormed(units) && forall u :: u in units ==> u < 0x1_0000
    ensures Encodes(text, units)
    decreases |units|
  {
    if units == [] {
      text := [];
    } else if High(units[0]) {
      assert units[0] in units && units[1] in units;
      InRest(units, 2);
      var rest := Decoded(units[2..]);
      var c := 0x1_0000 + (units[0] - 0xD800) * 1024 + (units[1] - 0xDC00);
      text := [c] + rest;
      assert Encoded(c) == [units[0], units[1]];
      assert text[1..] == rest;
      assert units == Encoded(c) + units[2..];
    } else {
      assert units[0] in units;
      InRest(units, 1);
      var rest := Decoded(units[1..]);
      text := [units[0]] + rest;
      assert text[1..] == rest;
      assert units == Encoded(units[0]) + units[1..];
    }
  }

  lemma {:induction false} EncodedIsWellFormed(text: seq<nat>)
    requires forall c :: c in text ==> Scalar(c)
    ensures WellFormed(EncodedAll(text))
  {
    if text != [] {
      EncodedIsWellFormed(text[1..]);
      var units, head, rest := EncodedAll(text), Encoded(text[0]), EncodedAll(text[1..]);
      assert units[|head|..] == rest;
    }
  }

  /** Letters, digits and the like, with no separator among them, name a file. */
  lemma PlainNames(name: seq<nat>)
    requires name != [] && name != [46] && name != [46, 46]
    requires forall i {:trigger name[i]} :: 0 <= i < |name| ==>
               name[i] < 0xD800 && name[i] != 47 && name[i] != 92 && name[i] != 58
    ensures IsFileName(name)
  {
    PlainIsWellFormed(name);
  }

  lemma {:induction false} PlainIsWellFormed(name: seq<nat>)
    requires forall i {:trigger name[i]} :: 0 <= i < |name| ==> name[i] < 0xD800
    ensures WellFormed(name)
  {
    if name != [] {
      PlainIsWellFormed(name[1..]);
    }
  }

  /** A path is no file name, nor is a directory's. */
  lemma PathsRefused(name: seq<nat>)
    requires 47 in name || 92 in name || 58 in name || name in {[], [46], [46, 46]}
    ensures !IsFileName(name)
  {
  }
}
