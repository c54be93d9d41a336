/** `get_recipients`: a message's recipient entries become three display
    strings, To, CC and BCC, each joined with `"; "`. */
module RecipientLists {
  import opened Base

  /** The archive's recipient-type codes. */
  const ToCode := 1
  const CcCode := 2
  const BccCode := 3

  const ListSeparator := "; "

  /** One recipient entry as the reader exposes it. Its type is read only
      for an entry that is displayed, and that read may raise. */
  datatype Recipient = Recipient(name: Option<string>, email: Option<string>, kind: Read<int>)

  /** One position of the recipient enumeration: the entry, its name and its
      address could be read, or one of those reads raised. */
  datatype Slot = Readable(recipient: Recipient) | Unreadable

  /** The display text of an entry; `None` when it is skipped. */
  function Display(r: Recipient): (d: Option<string>)
    ensures d.None? <==> !Present(r.name) && !Present(r.email)
    ensures d.Some? ==> |d.value| > 0
    ensures Present(r.name) && Present(r.email) ==> d == Some(r.name.value + " <" + r.email.value + ">")
    ensures !Present(r.name) && Present(r.email) ==> d == Some(r.email.value)
    ensures Present(r.name) && !Present(r.email) ==> d == Some(r.name.value)
  {
    if Present(r.name) && Present(r.email) then Some(r.name.value + " <" + r.email.value + ">")
    else if Present(r.email) then Some(r.email.value)
    else if Present(r.name) then Some(r.name.value)
    else None
  }

  /** The slot raises inside the loop: reading the entry, its name or its
      address raised, or the entry is displayed and reading its type raised. */
  predicate Raises(slot: Slot)
  {
    slot.Unreadable? || (Display(slot.recipient).Some? && slot.recipient.kind.Fails?)
  }

  /** The entries the loop gets through: those before the first slot that
      raises, since the first exception ends the enumeration. */
  function Enumerated(slots: seq<Slot>): (rs: seq<Recipient>)
    ensures |rs| <= |slots|
    ensures forall k :: 0 <= k < |rs| ==> slots[k] == Readable(rs[k]) && !Raises(slots[k])
    ensures |rs| < |slots| ==> Raises(slots[|rs|])
    decreases |slots|
  {
    if |slots| == 0 || Raises(slots[0]) then []
    else [slots[0].recipient] + Enumerated(slots[1..])
  }

  /** The display texts, in enumeration order, of the entries of type `code`. */
  function Routed(rs: seq<Recipient>, code: int): seq<string>
    decreases |rs|
  {
    if |rs| == 0 then []
    else
      var last := rs[|rs| - 1];
      Routed(rs[..|rs| - 1], code) +
        (if last.kind == Ok(code) && Display(last).Some? then [Display(last).value] else [])
  }

  /** A text is in the list for `code` exactly when some entry of that type displays as it. */
  lemma {:induction false} RoutedMembership(rs: seq<Recipient>, code: int, x: string)
    ensures x in Routed(rs, code) <==>
              exists i :: 0 <= i < |rs| && rs[i].kind == Ok(code) && Display(rs[i]) == Some(x)
    decreases |rs|
  {
    if |rs| > 0 {
      var init := rs[..|rs| - 1];
      RoutedMembership(init, code, x);
      if x in Routed(rs, code) && x !in Routed(init, code) {
        assert rs[|rs| - 1].kind == Ok(code) && Display(rs[|rs| - 1]) == Some(x);
      }
      if exists i :: 0 <= i < |rs| && rs[i].kind == Ok(code) && Display(rs[i]) == Some(x) {
        var i :| 0 <= i < |rs| && rs[i].kind == Ok(code) && Display(rs[i]) == Some(x);
        if i < |rs| - 1 {
          assert init[i] == rs[i];
        }
      }
    }
  }

  /** Routing preserves order: the list for a concatenation is the
      concatenation of the lists. */
  lemma {:induction false} RoutedAppend(a: seq<Recipient>, b: seq<Recipient>, code: int)
    ensures Routed(a + b, code) == Routed(a, code) + Routed(b, code)
    decreases |b|
  {
    if |b| == 0 {
      assert a + b == a;
    } else {
      assert (a + b)[..|a + b| - 1] == a + b[..|b| - 1];
      RoutedAppend(a, b[..|b| - 1], code);
    }
  }

  /** An entry of another type, or one with neither name nor address,
      contributes nothing to the list for `code`. */
  lemma {:induction false} SkippedEntry(a: seq<Recipient>, r: Recipient, b: seq<Recipient>, code: int)
    requires r.kind != Ok(code) || Display(r).None?
    ensures Routed(a + [r] + b, code) == Routed(a, code) + Routed(b, code)
  {
    var single := Routed([r], code);
    assert single == [] by {
      var one := [r];
      assert one[..|one| - 1] == [];
      assert one[|one| - 1] == r;
      assert Routed([], code) == [];
    }
    calc {
      Routed(a + [r] + b, code);
      { RoutedAppend(a + [r], b, code); }
      Routed(a + [r], code) + Routed(b, code);
      { RoutedAppend(a, [r], code); }
      Routed(a, code) + single + Routed(b, code);
    }
  }

  /** An entry with neither name nor address is passed over before its type
      is read, so it never ends the enumeration: removing it changes no list. */
  lemma {:induction false} BlankEntryIgnored(a: seq<Slot>, r: Recipient, b: seq<Slot>, code: int)
    requires Display(r).None?
    ensures Routed(Enumerated(a + [Readable(r)] + b), code) == Routed(Enumerated(a + b), code)
    decreases |a|
  {
    var blank := Readable(r);
    if |a| == 0 {
      assert a + [blank] + b == [blank] + b && a + b == b;
      BlankEntryFirst(r, b, code);
    } else {
      var tail, tail' := a[1..] + [blank] + b, a[1..] + b;
      assert a + [blank] + b == [a[0]] + tail && a + b == [a[0]] + tail';
      EnumeratedCons(a[0], tail);
      EnumeratedCons(a[0], tail');
      if !Raises(a[0]) {
        var x := a[0].recipient;
        BlankEntryIgnored(a[1..], r, b, code);
        RoutedAppend([x], Enumerated(tail), code);
        RoutedAppend([x], Enumerated(tail'), code);
      }
    }
  }

  lemma BlankEntryFirst(r: Recipient, b: seq<Slot>, code: int)
    requires Display(r).None?
    ensures Routed(Enumerated([Readable(r)] + b), code) == Routed(Enumerated(b), code)
  {
    var e := Enumerated(b);
    EnumeratedCons(Readable(r), b);
    assert !Raises(Readable(r));
    assert [] + [r] + e == [r] + e;
    SkippedEntry([], r, e, code);
    assert Routed([], code) == [];
  }

  /** The enumeration of a slot followed by more slots. */
  lemma EnumeratedCons(slot: Slot, rest: seq<Slot>)
    ensures Enumerated([slot] + rest) == if Raises(slot) then [] else [slot.recipient] + Enumerated(rest)
  {
  }

  /** The `(to, cc, bcc)` strings of a recipient enumeration, before cleaning. */
  function Recipients(slots: seq<Slot>): (string, string, string)
  {
    var rs := Enumerated(slots);
    (Join(Routed(rs, ToCode), ListSeparator),
     Join(Routed(rs, CcCode), ListSeparator),
     Join(Routed(rs, BccCode), ListSeparator))
  }

  /** The loop of `get_recipients`: append each displayable entry to the list
      its type selects, stop at the first exception keeping what was
      appended, and join each list. The type is read after the display
      text, and only for an entry that has one. */
  method GetRecipients(slots: seq<Slot>) returns (to: string, cc: string, bcc: string)
    ensures (to, cc, bcc) == Recipients(slots)
  {
    var toList: seq<string>, ccList: seq<string>, bccList: seq<string> := [], [], [];
    ghost var rs := Enumerated(slots);
    var i := 0;
    while i < |slots|
      invariant 0 <= i <= |rs|
      invariant toList == Routed(rs[..i], ToCode)
      invariant ccList == Routed(rs[..i], CcCode)
      invariant bccList == Routed(rs[..i], BccCode)
    {
      if slots[i].Unreadable? {
        break;
      }
      var recipient := slots[i].recipient;
      var entry := Display(recipient);
      if entry.Some? {
        if recipient.kind.Fails? {
          break;
        }
        var kind := recipient.kind.value;
        assert rs[i] == recipient;
        assert rs[..i + 1][..i] == rs[..i];
        if kind == ToCode {
          toList := toList + [entry.value];
        } else if kind == CcCode {
          ccList := ccList + [entry.value];
        } else if kind == BccCode {
          bccList := bccList + [entry.value];
        }
      } else {
        assert rs[i] == recipient;
        assert rs[..i + 1][..i] == rs[..i];
      }
      i := i + 1;
    }
    assert rs[..i] == rs;
    to := Join(toList, ListSeparator);
    cc := Join(ccList, ListSeparator);
    bcc := Join(bccList, ListSeparator);
  }
}
