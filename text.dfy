/** Separator-delimited text: joining fields with a separator, splitting
    them back apart, and the `name=value` pairs of a form-encoded body. */
module Text {

  /** `parts` glued together with `sep` between neighbours. */
  function Join(parts: seq<string>, sep: char): string
    requires |parts| >= 1
  {
    if |parts| == 1 then parts[0] else parts[0] + [sep] + Join(parts[1..], sep)
  }

  /** The pieces of `s` between occurrences of `sep`; there is always at
      least one, and none contains `sep`. */
  function Split(s: string, sep: char): (parts: seq<string>)
    ensures |parts| >= 1
    ensures forall i :: 0 <= i < |parts| ==> sep !in parts[i]
    decreases |s|
  {
    if s == [] then [[]]
    else
      var rest := Split(s[1..], sep);
      if s[0] == sep then [[]] + rest
      else [[s[0]] + rest[0]] + rest[1..]
  }

  /** Splitting and joining again gives the text back. */
  lemma {:induction false} SplitJoin(s: string, sep: char)
    ensures Join(Split(s, sep), sep) == s
    decreases |s|
  {
    if s != [] {
      var rest := Split(s[1..], sep);
      SplitJoin(s[1..], sep);
      if s[0] != sep {
        var parts := Split(s, sep);
        assert parts[1..] == rest[1..];
        if |rest| > 1 {
          assert Join(rest, sep) == rest[0] + [sep] + Join(rest[1..], sep);
        }
      } else {
        assert ([[]] + rest)[1..] == rest;
      }
    }
  }

  /** Joining pieces free of `sep` and splitting again gives the pieces
      back. */
  lemma {:induction false} JoinSplit(parts: seq<string>, sep: char)
    requires |parts| >= 1
    requires forall i :: 0 <= i < |parts| ==> sep !in parts[i]
    ensures Split(Join(parts, sep), sep) == parts
    decreases |parts|, |parts[0]|
  {
    var head := parts[0];
    if head != [] {
      var tail := [head[1..]] + parts[1..];
      assert sep !in head[1..] by { assert forall c :: c in head[1..] ==> c in head; }
      assert forall i :: 0 <= i < |tail| ==> sep !in tail[i] by {
        forall i | 0 <= i < |tail| ensures sep !in tail[i] {
          if i > 0 { assert tail[i] == parts[i]; }
        }
      }
      JoinSplit(tail, sep);
      JoinFront(parts, sep);
      JoinFront(tail, sep);
      var s := Join(parts, sep);
      assert s[0] == head[0] && s[1..] == Join(tail, sep);
      assert [head[0]] + head[1..] == head;
      assert tail[1..] == parts[1..];
    } else if |parts| > 1 {
      JoinSplit(parts[1..], sep);
      var s := Join(parts, sep);
      assert s == [sep] + Join(parts[1..], sep);
      assert s[1..] == Join(parts[1..], sep);
      assert [[]] + parts[1..] == parts;
    }
  }

  /** `Join` with its first piece taken apart character by character. */
  lemma JoinFront(parts: seq<string>, sep: char)
    requires |parts| >= 1
    ensures var s := Join(parts, sep);
      |parts[0]| >= 1 ==> |s| >= 1 && s[0] == parts[0][0] && s[1..] == Join([parts[0][1..]] + parts[1..], sep)
  {
  }

  /** Joining one more piece appends a separator and the piece. */
  lemma {:induction false} JoinSnoc(parts: seq<string>, last: string, sep: char)
    requires |parts| >= 1
    ensures Join(parts + [last], sep) == Join(parts, sep) + [sep] + last
    decreases |parts|
  {
    if |parts| > 1 {
      assert (parts + [last])[1..] == parts[1..] + [last];
      JoinSnoc(parts[1..], last, sep);
    }
  }

  /** A pair `name=value` of a form-encoded body. */
  datatype Field = Field(name: string, value: string)

  /** A piece of a body cut at its first `=`; a piece without `=` is a name
      with an empty value. */
  function SplitOnce(piece: string): (f: Field)
    ensures '=' !in f.name
    ensures piece == if '=' in piece then f.name + "=" + f.value else f.name
    decreases |piece|
  {
    if piece == [] then Field([], [])
    else if piece[0] == '=' then Field([], piece[1..])
    else
      var rest := SplitOnce(piece[1..]);
      Field([piece[0]] + rest.name, rest.value)
  }

  /** Cutting `name=value` at its first `=` gives the name and the value
      back whenever the name has no `=`. */
  lemma {:induction false} SplitOnceField(name: string, value: string)
    requires '=' !in name
    ensures SplitOnce(name + "=" + value) == Field(name, value)
    decreases |name|
  {
    var piece := name + "=" + value;
    if name == [] {
      assert piece[0] == '=' && piece[1..] == value;
    } else {
      assert piece[0] == name[0];
      assert piece[1..] == name[1..] + "=" + value;
      assert '=' !in name[1..] by { assert forall c :: c in name[1..] ==> c in name; }
      SplitOnceField(name[1..], value);
      assert [name[0]] + name[1..] == name;
    }
  }

  /** The text of one field: `name=value`. */
  function Encode(f: Field): string
  {
    f.name + "=" + f.value
  }

  function EncodeAll(fields: seq<Field>): (pieces: seq<string>)
    ensures |pieces| == |fields|
    ensures forall i :: 0 <= i < |fields| ==> pieces[i] == Encode(fields[i])
  {
    if fields == [] then [] else [Encode(fields[0])] + EncodeAll(fields[1..])
  }

  function DecodeAll(pieces: seq<string>): (fields: seq<Field>)
    ensures |fields| == |pieces|
    ensures forall i :: 0 <= i < |pieces| ==> fields[i] == SplitOnce(pieces[i])
  {
    if pieces == [] then [] else [SplitOnce(pieces[0])] + DecodeAll(pieces[1..])
  }

  /** The fields of an `application/x-www-form-urlencoded` body, with no
      percent-decoding: the pieces between `&`, each cut at its first `=`. */
  function FormDecode(body: string): seq<Field>
  {
    DecodeAll(Split(body, '&'))
  }

  /** The body holding `fields`: their `name=value` texts joined by `&`. */
  function FormEncode(fields: seq<Field>): string
    requires |fields| >= 1
  {
    Join(EncodeAll(fields), '&')
  }

  /** A field can travel in a body when its name has neither `&` nor `=`
      and its value has no `&`. */
  predicate Encodable(f: Field)
  {
    '&' !in f.name && '=' !in f.name && '&' !in f.value
  }

  /** Decoding an encoded body gives the fields back. */
  lemma FormRoundTrip(fields: seq<Field>)
    requires |fields| >= 1
    requires forall i :: 0 <= i < |fields| ==> Encodable(fields[i])
    ensures FormDecode(FormEncode(fields)) == fields
  {
    var pieces := EncodeAll(fields);
    forall i | 0 <= i < |pieces|
      ensures '&' !in pieces[i] && SplitOnce(pieces[i]) == fields[i]
    {
      SplitOnceField(fields[i].name, fields[i].value);
      assert forall c :: c in pieces[i] ==> c in fields[i].name || c == '=' || c in fields[i].value;
    }
    JoinSplit(pieces, '&');
  }

  /** A `format!` template filled in: `pieces[0] + args[0] + pieces[1] +
      args[1] + ...`. */
  function Interpolate(pieces: seq<string>, args: seq<string>): string
    requires |pieces| == |args|
  {
    if |pieces| == 0 then []
    else
      var k := |pieces| - 1;
      Interpolate(pieces[..k], args[..k]) + pieces[k] + args[k]
  }

  /** The `name=value` texts of names paired with values. */
  function Pairs(names: seq<string>, values: seq<string>): (pieces: seq<string>)
    requires |names| == |values|
    ensures |pieces| == |names|
    ensures forall i :: 0 <= i < |names| ==> pieces[i] == Encode(Field(names[i], values[i]))
  {
    seq(|names|, i requires 0 <= i < |names| => Encode(Field(names[i], values[i])))
  }

  /** One more field after the text of the fields before it. */
  lemma AppendPair(x: string, literal: string, name: string, value: string)
    requires literal == "&" + name + "="
    ensures x + literal + value == x + ['&'] + Encode(Field(name, value))
  {
  }

  /** A template `name0=`, `&name1=`, ... filled with values is the form
      encoding of the fields `name_i=value_i`. */
  lemma {:induction false} InterpolateEncodes(pieces: seq<string>, names: seq<string>, values: seq<string>)
    requires |pieces| == |names| == |values| >= 1
    requires pieces[0] == names[0] + "="
    requires forall i :: 1 <= i < |pieces| ==> pieces[i] == "&" + names[i] + "="
    ensures Interpolate(pieces, values) == Join(Pairs(names, values), '&')
    decreases |pieces|
  {
    var k := |pieces| - 1;
    var all := Pairs(names, values);
    if k == 0 {
      assert Interpolate(pieces[..0], values[..0]) == [];
      assert [] + pieces[0] + values[0] == all[0];
    } else {
      var before := Pairs(names[..k], values[..k]);
      InterpolateEncodes(pieces[..k], names[..k], values[..k]);
      assert all == before + [all[k]];
      JoinSnoc(before, all[k], '&');
      AppendPair(Join(before, '&'), pieces[k], names[k], values[k]);
    }
  }
}
