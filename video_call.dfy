/** The two pieces of logic in the video-call component: the call-duration
    label and the guard that ignores call events the client itself sent. */
module VideoCall {
  import opened SocketIo
  import opened Protocol
  import Signaling

  // ----- Decimal text -----

  predicate IsDigit(c: char)
  {
    '0' <= c <= '9'
  }

  predicate AllDigits(s: string)
  {
    forall i :: 0 <= i < |s| ==> IsDigit(s[i])
  }

  function DigitChar(d: nat): (c: char)
    requires d < 10
    ensures IsDigit(c) && c as int - '0' as int == d
  {
    ('0' as int + d) as char
  }

  /** `n.toString()` for a whole number. */
  function NatToString(n: nat): (s: string)
    ensures 1 <= |s| && (|s| == 1 <==> n < 10)
    ensures n < 100 ==> |s| <= 2
  {
    if n < 10 then [DigitChar(n)]
    else NatToString(n / 10) + [DigitChar(n % 10)]
  }

  /** The number a digit string denotes: the independent reading side. */
  function DecimalValue(s: string): nat
    requires AllDigits(s)
  {
    if s == [] then 0
    else DecimalValue(s[..|s| - 1]) * 10 + (s[|s| - 1] as int - '0' as int)
  }

  /** `toString` writes only digits, and they read back as the number. */
  lemma {:induction false} NatToStringValue(n: nat)
    ensures AllDigits(NatToString(n)) && DecimalValue(NatToString(n)) == n
  {
    if n >= 10 {
      NatToStringValue(n / 10);
      var s := NatToString(n);
      assert s[..|s| - 1] == NatToString(n / 10);
      assert AllDigits(s) by {
        forall i | 0 <= i < |s| ensures IsDigit(s[i]) {
          if i < |s| - 1 { assert s[i] == NatToString(n / 10)[i]; }
        }
      }
    }
  }

  /** Leading zeros do not change the value. */
  lemma {:induction false} LeadingZeros(z: string, s: string)
    requires forall i :: 0 <= i < |z| ==> z[i] == '0'
    requires AllDigits(s)
    ensures AllDigits(z + s)
    ensures DecimalValue(z + s) == DecimalValue(s)
    decreases |z| + |s|
  {
    assert AllDigits(z + s) by {
      forall i | 0 <= i < |z + s| ensures IsDigit((z + s)[i]) {
        if i < |z| { assert (z + s)[i] == z[i]; } else { assert (z + s)[i] == s[i - |z|]; }
      }
    }
    if s == [] {
      assert z + s == z;
      if z != [] {
        assert z[..|z| - 1] + [] == z[..|z| - 1];
        LeadingZeros(z[..|z| - 1], []);
      }
    } else {
      assert (z + s)[..|z + s| - 1] == z + s[..|s| - 1];
      LeadingZeros(z, s[..|s| - 1]);
    }
  }

  /** `s.padStart(width, fill)` with a one-character fill: pads on the
      left up to `width`, never truncates. */
  function PadStart(s: string, width: nat, fill: char): (r: string)
    ensures |r| == if |s| >= width then |s| else width
  {
    if |s| >= width then s else seq(width - |s|, _ => fill) + s
  }

  /** What `padStart` adds is fill characters, all on the left. */
  lemma PadStartShape(s: string, width: nat, fill: char)
    ensures var r := PadStart(s, width, fill);
      && r == r[..|r| - |s|] + s
      && forall i :: 0 <= i < |r| - |s| ==> r[i] == fill
  {
  }

  /** `formatCallDuration`: minutes and seconds, each left-padded with
      zeros to two digits, joined by a colon. */
  function FormatCallDuration(seconds: nat): (r: string)
    ensures |r| >= 5
    ensures seconds < 6000 ==> |r| == 5
  {
    Label(seconds / 60, seconds % 60)
  }

  /** The template string of the label: both fields padded to two digits. */
  function Label(mins: nat, secs: nat): (r: string)
    ensures |r| >= 5
    ensures mins < 100 && secs < 100 ==> |r| == 5
  {
    PadStart(NatToString(mins), 2, '0') + ":" + PadStart(NatToString(secs), 2, '0')
  }

  /** Reading a `MM:SS` label back: everything before the third-last
      character is minutes, the last two are seconds. */
  function ParseCallDuration(t: string): Option<nat>
  {
    if |t| >= 4 && t[|t| - 3] == ':' then ReadFields(t[..|t| - 3], t[|t| - 2..]) else None
  }

  function ReadFields(m: string, s: string): Option<nat>
  {
    if AllDigits(m) && AllDigits(s) then Some(DecimalValue(m) * 60 + DecimalValue(s)) else None
  }

  /** Padding a digit string with zeros keeps its value. */
  lemma PaddedValue(s: string, width: nat)
    requires AllDigits(s)
    ensures var f := PadStart(s, width, '0'); AllDigits(f) && DecimalValue(f) == DecimalValue(s)
  {
    var f := PadStart(s, width, '0');
    PadStartShape(s, width, '0');
    LeadingZeros(f[..|f| - |s|], s);
  }

  /** The padded field of a value below 100 is exactly two digits that
      read back as the value. */
  lemma TwoDigitField(n: nat)
    requires n < 100
    ensures var f := PadStart(NatToString(n), 2, '0');
      |f| == 2 && AllDigits(f) && DecimalValue(f) == n
  {
    NatToStringValue(n);
    PaddedValue(NatToString(n), 2);
  }

  /** The minutes field is at least two digits and reads back as the
      minutes. */
  lemma MinutesField(n: nat)
    ensures var f := PadStart(NatToString(n), 2, '0');
      |f| >= 2 && AllDigits(f) && DecimalValue(f) == n
  {
    NatToStringValue(n);
    PaddedValue(NatToString(n), 2);
  }

  /** A label made of a digit field, a colon and a two-digit field splits
      back into the two fields. */
  lemma LabelFields(m: string, s: string)
    requires AllDigits(m) && AllDigits(s) && |m| >= 2 && |s| == 2
    ensures var r := m + ":" + s;
      && |r| >= 5 && r[|r| - 3] == ':'
      && r[..|r| - 3] == m && r[|r| - 2..] == s
      && (|m| == 2 ==> |r| == 5 && r[2] == ':')
  {
  }

  lemma DivMod60(seconds: nat)
    ensures seconds % 60 < 60 && (seconds / 60) * 60 + seconds % 60 == seconds
    ensures seconds < 6000 ==> seconds / 60 < 100
  {
  }

  /** Reading back a label built from a digit field, a colon and a
      two-digit field. */
  lemma LabelRead(m: string, s: string)
    requires |m| >= 1 && |s| == 2
    ensures ParseCallDuration(m + ":" + s) == ReadFields(m, s)
  {
    var t := m + ":" + s;
    assert t[..|t| - 3] == m && t[|t| - 2..] == s && t[|t| - 3] == ':';
  }

  /** A label whose fields read as `mv` and `sv` reads back as `mv`
      minutes and `sv` seconds. */
  lemma LabelReadBack(m: string, s: string, mv: nat, sv: nat)
    requires AllDigits(m) && AllDigits(s) && |m| >= 1 && |s| == 2
    requires DecimalValue(m) == mv && DecimalValue(s) == sv
    ensures ParseCallDuration(m + ":" + s) == Some(mv * 60 + sv)
  {
    LabelRead(m, s);
  }

  lemma LabelShort(mins: nat, secs: nat)
    requires mins < 100 && secs < 60
    ensures var r := Label(mins, secs); |r| == 5 && r[2] == ':'
  {
    TwoDigitField(mins);
    TwoDigitField(secs);
    LabelFields(PadStart(NatToString(mins), 2, '0'), PadStart(NatToString(secs), 2, '0'));
  }

  lemma LabelRoundTrip(mins: nat, secs: nat)
    requires secs < 60
    ensures ParseCallDuration(Label(mins, secs)) == Some(mins * 60 + secs)
  {
    var m := PadStart(NatToString(mins), 2, '0');
    var s := PadStart(NatToString(secs), 2, '0');
    MinutesField(mins);
    TwoDigitField(secs);
    LabelReadBack(m, s, mins, secs);
  }

  /** The digit fields of a label built from a digit field, a colon and a
      two-digit field, read off the label itself. */
  lemma LabelDigits(m: string, s: string, mv: nat, sv: nat)
    requires AllDigits(m) && AllDigits(s) && |m| >= 2 && |s| == 2
    requires DecimalValue(m) == mv && DecimalValue(s) == sv
    ensures var r := m + ":" + s;
      && |r| >= 5 && r[|r| - 3] == ':'
      && |r[..|r| - 3]| >= 2 && AllDigits(r[..|r| - 3]) && DecimalValue(r[..|r| - 3]) == mv
      && AllDigits(r[|r| - 2..]) && DecimalValue(r[|r| - 2..]) == sv
  {
    LabelFields(m, s);
  }

  /** The label of `mins` and `secs`: at least two digits of minutes, a
      colon, and exactly two digits of seconds, reading as the two values. */
  lemma LabelFieldValues(mins: nat, secs: nat)
    requires secs < 60
    ensures var r := Label(mins, secs);
      && |r| >= 5 && r[|r| - 3] == ':'
      && |r[..|r| - 3]| >= 2 && AllDigits(r[..|r| - 3]) && DecimalValue(r[..|r| - 3]) == mins
      && AllDigits(r[|r| - 2..]) && DecimalValue(r[|r| - 2..]) == secs
  {
    var m := PadStart(NatToString(mins), 2, '0');
    var s := PadStart(NatToString(secs), 2, '0');
    MinutesField(mins);
    TwoDigitField(secs);
    LabelDigits(m, s, mins, secs);
  }

  /** `formatCallDuration`'s label: its fields read as the whole minutes
      and the remaining seconds, the seconds always in two digits. */
  lemma FormatFields(seconds: nat)
    ensures var r := FormatCallDuration(seconds);
      && |r| >= 5 && r[|r| - 3] == ':'
      && |r[..|r| - 3]| >= 2 && AllDigits(r[..|r| - 3]) && DecimalValue(r[..|r| - 3]) == seconds / 60
      && AllDigits(r[|r| - 2..]) && DecimalValue(r[|r| - 2..]) == seconds % 60
  {
    LabelFieldValues(seconds / 60, seconds % 60);
  }

  /** `formatCallDuration`'s label below 100 minutes is exactly `MM:SS`. */
  lemma FormatShort(seconds: nat)
    requires seconds < 6000
    ensures var r := FormatCallDuration(seconds); |r| == 5 && r[2] == ':'
  {
    DivMod60(seconds);
    LabelShort(seconds / 60, seconds % 60);
  }

  /** The label determines the duration: reading it back gives the
      seconds it was made from. */
  lemma FormatRoundTrip(seconds: nat)
    ensures ParseCallDuration(FormatCallDuration(seconds)) == Some(seconds)
  {
    DivMod60(seconds);
    LabelRoundTrip(seconds / 60, seconds % 60);
  }

  lemma FormatInjective(a: nat, b: nat)
    requires FormatCallDuration(a) == FormatCallDuration(b)
    ensures a == b
  {
    FormatRoundTrip(a);
    FormatRoundTrip(b);
  }

  // ----- Incoming call guard -----

  /** The `incomingCall` state the dialog shows. */
  datatype IncomingCall = IncomingCall(
    callerId: ConnId,
    callerName: string,
    sessionId: Option<string>,
    offer: Option<Json>,
    isAudioCall: bool)

  /** The four incoming-call handlers: a request or offer from another
      connection replaces the state; one carrying the client's own id is
      ignored. Requests keep the session id, offers the offer. */
  function OnIncomingCall(ownId: ConnId, current: Option<IncomingCall>, ev: Outbound): (r: Option<IncomingCall>)
    requires ev.CallRequest? || ev.CallOffer?
    ensures ev.callerId == ownId ==> r == current
    ensures ev.callerId != ownId ==>
      && r.Some? && r.value.callerId == ev.callerId && r.value.callerName == ev.callerName
      && r.value.isAudioCall == (ev.mode == Audio)
      && r.value.offer == (if ev.CallOffer? then Some(ev.offer) else None)
      && r.value.sessionId == (if ev.CallRequest? then Some(ev.sessionId) else None)
  {
    if ev.callerId == ownId then current
    else match ev
      case CallRequest(mode, callerId, callerName, sid) =>
        Some(IncomingCall(callerId, callerName, Some(sid), None, mode == Audio))
      case CallOffer(mode, offer, callerId, callerName, _) =>
        Some(IncomingCall(callerId, callerName, None, Some(offer), mode == Audio))
  }

  /** A request or offer the server relays never comes back to its sender,
      so the connection it reaches always shows it, with the sender as
      caller and the mode the sender chose. */
  lemma RelayedCallRings(a: Adapter, sender: ConnId, s: Signaling.Signal, c: ConnId,
                         current: Option<IncomingCall>, ev: Outbound)
    requires s.Request? || s.Offer?
    requires ev in Received(a, sender, Signaling.Relay(sender, s), c)
    ensures ev.CallRequest? || ev.CallOffer?
    ensures var r := OnIncomingCall(c, current, ev);
      && r.Some? && r.value.callerId == sender && r.value.callerName == s.callerName
      && r.value.isAudioCall == (s.mode == Audio)
  {
    var out := Signaling.Relay(sender, s);
    Signaling.RelayRecipients(a, sender, s, c);
    assert ev == out[0].event && c != sender;
    assert out[0].event == if s.Request? then CallRequest(s.mode, sender, s.callerName, s.sessionId)
                           else CallOffer(s.mode, s.offer, sender, s.callerName, s.sessionId);
  }
}
