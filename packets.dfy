/**
 * Packets of the broadcast network simulator.
 *
 * A packet kind is an ordered tuple of required header field names. A packet is
 * built from keyword fields: each header name, in order, is popped from the
 * keyword arguments and stored as an attribute; the first name that cannot be
 * popped aborts construction with an error naming it. Keyword arguments that are
 * not header fields are ignored.
 */
module Packets {

  /** A field value. The simulator stores node names, clock readings in
      milliseconds, message counters and payload strings. */
  datatype Value = Int(i: int) | Str(s: string)

  datatype Option<T> = None | Some(value: T)

  /** Packet construction either succeeds or reports the field it missed. */
  datatype Result<T> = Ok(value: T) | MissingField(field: string)

  /** A packet: the header of its kind and the attributes set at construction. */
  datatype Packet = Packet(header: seq<string>, attrs: map<string, Value>)

  /** Header of the plain broadcast packet. */
  const BroadcastHeader: seq<string> := ["sender_id", "timestamp", "message_counter", "data"]

  /** No element occurs twice. */
  predicate Distinct<T(==)>(s: seq<T>) {
    forall i, j :: 0 <= i < j < |s| ==> s[i] != s[j]
  }

  /** Field `header[i]` cannot be popped: it was never supplied, or an earlier
      occurrence of the same name already popped it. */
  predicate Unpoppable(header: seq<string>, kwargs: map<string, Value>, i: nat)
    requires i < |header|
  {
    header[i] !in kwargs || header[i] in header[..i]
  }

  /** The construction loop: pop each header field from `kwargs` into `attrs`. */
  function Pop(header: seq<string>, kwargs: map<string, Value>, attrs: map<string, Value>): Result<map<string, Value>>
    decreases |header|
  {
    if header == [] then Ok(attrs)
    else if header[0] !in kwargs then MissingField(header[0])
    else Pop(header[1..], kwargs - {header[0]}, attrs[header[0] := kwargs[header[0]]])
  }

  /** Builds a packet of the kind whose header is `header` from keyword fields. */
  function Construct(header: seq<string>, kwargs: map<string, Value>): Result<Packet> {
    match Pop(header, kwargs, map[])
    case Ok(attrs) => Ok(Packet(header, attrs))
    case MissingField(f) => MissingField(f)
  }

  lemma {:induction false} PopSucceedsIff(header: seq<string>, kwargs: map<string, Value>, attrs: map<string, Value>)
    ensures Pop(header, kwargs, attrs).Ok? <==> Distinct(header) && forall f :: f in header ==> f in kwargs
    decreases |header|
  {
    if header != [] && header[0] in kwargs {
      var h, rest := header[0], header[1..];
      PopSucceedsIff(rest, kwargs - {h}, attrs[h := kwargs[h]]);
      assert header == [h] + rest;
      if Distinct(header) && forall f :: f in header ==> f in kwargs {
        forall f | f in rest ensures f in kwargs - {h} {
          var j :| 0 <= j < |rest| && rest[j] == f;
          assert header[0] != header[j + 1];
        }
        assert Distinct(rest) by {
          forall i, j | 0 <= i < j < |rest| ensures rest[i] != rest[j] {
            assert header[i + 1] != header[j + 1];
          }
        }
      }
      if Distinct(rest) && forall f :: f in rest ==> f in kwargs - {h} {
        forall i, j | 0 <= i < j < |header| ensures header[i] != header[j] {
          if i > 0 { assert rest[i - 1] != rest[j - 1]; }
          else { assert rest[j - 1] in rest; }
        }
      }
    }
  }

  lemma {:induction false} PopFields(header: seq<string>, kwargs: map<string, Value>, attrs: map<string, Value>)
    requires Pop(header, kwargs, attrs).Ok?
    ensures var a := Pop(header, kwargs, attrs).value;
      && a.Keys == attrs.Keys + (set f | f in header)
      && (forall f :: f in header ==> f in kwargs && a[f] == kwargs[f])
      && (forall f :: f in attrs && f !in header ==> a[f] == attrs[f])
    decreases |header|
  {
    if header != [] {
      var h, rest := header[0], header[1..];
      assert header == [h] + rest;
      PopFields(rest, kwargs - {h}, attrs[h := kwargs[h]]);
      PopSucceedsIff(header, kwargs, attrs);
      assert h !in rest by {
        forall j | 0 <= j < |rest| ensures rest[j] != h {
          assert header[0] != header[j + 1];
        }
      }
    }
  }

  lemma {:induction false} PopFailsAtFirst(header: seq<string>, kwargs: map<string, Value>, attrs: map<string, Value>, i: nat)
    requires i < |header| && Unpoppable(header, kwargs, i)
    requires forall j :: 0 <= j < i ==> !Unpoppable(header, kwargs, j)
    ensures Pop(header, kwargs, attrs) == MissingField(header[i])
    decreases |header|
  {
    if i > 0 {
      var h, rest := header[0], header[1..];
      assert !Unpoppable(header, kwargs, 0);
      assert Unpoppable(rest, kwargs - {h}, i - 1) by {
        assert header[..i] == [h] + rest[..i - 1];
      }
      forall j | 0 <= j < i - 1 ensures !Unpoppable(rest, kwargs - {h}, j) {
        assert !Unpoppable(header, kwargs, j + 1);
        assert header[..j + 1] == [h] + rest[..j];
      }
      PopFailsAtFirst(rest, kwargs - {h}, attrs[h := kwargs[h]], i - 1);
    }
  }

  /** Construction succeeds exactly when the header names are distinct and each
      of them was supplied. */
  lemma ConstructSucceedsIff(header: seq<string>, kwargs: map<string, Value>)
    ensures Construct(header, kwargs).Ok? <==> Distinct(header) && forall f :: f in header ==> f in kwargs
  {
    PopSucceedsIff(header, kwargs, map[]);
  }

  /** A built packet holds exactly the header fields, each with the value that was
      supplied for it; other keyword fields are dropped. */
  lemma ConstructKeepsSuppliedValues(header: seq<string>, kwargs: map<string, Value>)
    requires Construct(header, kwargs).Ok?
    ensures var p := Construct(header, kwargs).value;
      && p.header == header
      && p.attrs.Keys == set f | f in header
      && forall f :: f in header ==> f in p.attrs && f in kwargs && p.attrs[f] == kwargs[f]
  {
    PopFields(header, kwargs, map[]);
  }

  /** With distinct header names, a failed construction names the first header
      field, in header order, that was not supplied. */
  lemma ConstructNamesFirstMissing(header: seq<string>, kwargs: map<string, Value>, i: nat)
    requires Distinct(header)
    requires i < |header| && header[i] !in kwargs
    requires forall j :: 0 <= j < i ==> header[j] in kwargs
    ensures Construct(header, kwargs) == MissingField(header[i])
  {
    forall j | 0 <= j < i ensures !Unpoppable(header, kwargs, j) {
      assert forall k :: 0 <= k < j ==> header[..j][k] != header[j];
    }
    PopFailsAtFirst(header, kwargs, map[], i);
  }

  /** A header that repeats a name can never be satisfied: the second occurrence
      finds the field already popped. */
  lemma ConstructRejectsRepeatedField(header: seq<string>, kwargs: map<string, Value>, i: nat, j: nat)
    requires i < j < |header| && header[i] == header[j]
    ensures Construct(header, kwargs).MissingField?
  {
    ConstructSucceedsIff(header, kwargs);
  }
}
