/** The Bluetooth transports: the desktop mock, the Android serial link (its
    adapter, socket and output stream replaced by parameters that say how the
    foreign calls behave), and the choice between the two by platform. */
module Transport {
  import opened Wrappers

  /** A paired device: display name and MAC address. */
  datatype Device = Device(name: string, address: string)

  /** The one device the mock reports as paired. */
  const MockDevice: Device := Device("HC-05-MOCK", "00:00:00:00:00:00")

  predicate EndsWithNewline(text: string)
  {
    |text| > 0 && text[|text| - 1] == '\n'
  }

  /** The text the Android link writes: `text`, newline-terminated. */
  function WithNewline(text: string): (r: string)
    ensures EndsWithNewline(r)
    ensures |text| <= |r| <= |text| + 1 && r[..|text|] == text
  {
    if EndsWithNewline(text) then text else text + "\n"
  }

  /** The newline is added only when missing: terminating twice is terminating once, and a
      terminated text is left as it is. */
  lemma WithNewlineIdempotent(text: string)
    ensures WithNewline(WithNewline(text)) == WithNewline(text)
    ensures WithNewline(text) == text <==> EndsWithNewline(text)
  {
  }

  // ---------------------------------------------------------------- the mock

  /** `MockBluetooth`: a connected flag and the name it was connected to. */
  class MockBluetooth {
    var connected: bool
    var deviceName: Option<string>

    /** A new mock is disconnected. */
    constructor ()
      ensures !connected && deviceName == None
    {
      connected := false;
      deviceName := None;
    }

    /** Exactly one fixed device is paired. */
    function ListPaired(): (r: seq<Device>)
      ensures |r| == 1 && r[0].name == "HC-05-MOCK" && r[0].address == "00:00:00:00:00:00"
    {
      [MockDevice]
    }

    /** Always succeeds, leaving the mock connected to the given name. */
    method Connect(nameOrMac: string) returns (ok: bool, msg: string)
      modifies this
      ensures ok && connected && deviceName == Some(nameOrMac)
      ensures msg == "Conectado a " + nameOrMac + " (simulado)"
    {
      connected := true;
      deviceName := Some(nameOrMac);
      ok, msg := true, "Conectado a " + nameOrMac + " (simulado)";
    }

    /** `is_connected`: the connected flag. */
    function IsConnected(): (r: bool)
      reads this
      ensures r <==> connected
    {
      connected
    }

    /** Succeeds exactly while connected; the connection state is left as it is. */
    method Send(text: string) returns (ok: bool, msg: string)
      ensures ok <==> connected
      ensures msg == if connected then "Enviado (simulado)" else "No conectado"
    {
      if !connected {
        return false, "No conectado";
      }
      ok, msg := true, "Enviado (simulado)";
    }
  }

  // ---------------------------------------------------------------- the Android link

  /** The phone's Bluetooth adapter as the link sees it: switched on, and its bonded devices. */
  datatype Adapter = Adapter(enabled: bool, bonded: seq<Device>)

  /** A device answers to a name-or-MAC key by either its address or its name. */
  predicate Matches(d: Device, key: string)
  {
    d.address == key || d.name == key
  }

  /** The bonded device `connect` picks: the first that answers to the key, if any. */
  method FindBonded(devices: seq<Device>, key: string) returns (target: Option<Device>)
    ensures target.None? <==> forall d :: d in devices ==> !Matches(d, key)
    ensures target.Some? ==>
      exists i :: 0 <= i < |devices| && devices[i] == target.value && Matches(devices[i], key) &&
        forall j :: 0 <= j < i ==> !Matches(devices[j], key)
  {
    target := None;
    var i := 0;
    while i < |devices|
      invariant 0 <= i <= |devices|
      invariant forall j :: 0 <= j < i ==> !Matches(devices[j], key)
    {
      if Matches(devices[i], key) {
        target := Some(devices[i]);
        return;
      }
      i := i + 1;
    }
  }

  /** `AndroidBluetooth`: connected flag, whether an output stream is open, and the texts the
      stream has received. */
  class AndroidBluetooth {
    var connected: bool
    var hasOutStream: bool
    var written: seq<string>

    constructor ()
      ensures !connected && !hasOutStream && written == []
    {
      connected, hasOutStream, written := false, false, [];
    }

    /** The bonded devices, or none when the adapter is missing or switched off. */
    function ListPaired(adapter: Option<Adapter>): (r: seq<Device>)
      ensures adapter.None? || !adapter.value.enabled ==> r == []
      ensures adapter.Some? && adapter.value.enabled ==> r == adapter.value.bonded
    {
      match adapter
      case Some(a) => if a.enabled then a.bonded else []
      case None => []
    }

    /** Connects to the first bonded device answering to `nameOrMac`; `socketError` is the
        error the socket's `connect` raises, if any. Every failure leaves the state as it was. */
    method Connect(nameOrMac: string, adapter: Option<Adapter>, socketError: Option<string>)
      returns (ok: bool, msg: string)
      modifies this
      ensures written == old(written)
      ensures adapter.None? || !adapter.value.enabled ==>
        !ok && msg == "Bluetooth apagado o no disponible" && unchanged(this)
      ensures adapter.Some? && adapter.value.enabled && (forall d :: d in adapter.value.bonded ==> !Matches(d, nameOrMac)) ==>
        !ok && msg == "Dispositivo no emparejado" && unchanged(this)
      ensures socketError.Some? ==> !ok && unchanged(this)
      ensures adapter.Some? && adapter.value.enabled && (exists d :: d in adapter.value.bonded && Matches(d, nameOrMac)) &&
              socketError.Some? ==>
        msg == "Error conectando: " + socketError.value
      ensures ok <==> adapter.Some? && adapter.value.enabled && socketError.None? &&
                      (exists d :: d in adapter.value.bonded && Matches(d, nameOrMac))
      ensures ok ==> connected && hasOutStream
      ensures ok ==>
        exists i :: 0 <= i < |adapter.value.bonded| && Matches(adapter.value.bonded[i], nameOrMac) &&
          (forall j :: 0 <= j < i ==> !Matches(adapter.value.bonded[j], nameOrMac)) &&
          msg == "Conectado a " + adapter.value.bonded[i].name
    {
      if adapter.None? || !adapter.value.enabled {
        return false, "Bluetooth apagado o no disponible";
      }
      var target := FindBonded(adapter.value.bonded, nameOrMac);
      if target.None? {
        return false, "Dispositivo no emparejado";
      }
      if socketError.Some? {
        return false, "Error conectando: " + socketError.value;
      }
      hasOutStream := true;
      connected := true;
      ok, msg := true, "Conectado a " + target.value.name;
    }

    /** `is_connected`: the connected flag. */
    function IsConnected(): (r: bool)
      reads this
      ensures r <==> connected
    {
      connected
    }

    /** Fails without writing unless connected with an open stream; otherwise writes the
        newline-terminated text. `fault` is the error the stream's write raises, if any. */
    method Send(text: string, fault: Option<string>) returns (ok: bool, msg: string)
      modifies this`written
      ensures ok <==> connected && hasOutStream && fault.None?
      ensures !connected || !hasOutStream ==> msg == "No conectado"
      ensures connected && hasOutStream && fault.Some? ==> msg == "Error enviando: " + fault.value
      ensures ok ==> msg == "Enviado" && written == old(written) + [WithNewline(text)]
      ensures !ok ==> written == old(written)
    {
      if !connected || !hasOutStream {
        return false, "No conectado";
      }
      var line := text;
      if !EndsWithNewline(line) {
        line := line + "\n";
      }
      if fault.Some? {
        return false, "Error enviando: " + fault.value;
      }
      written := written + [line];
      ok, msg := true, "Enviado";
    }
  }

  // ---------------------------------------------------------------- choosing a transport

  /** The transport `get_bluetooth` hands out. */
  datatype Bluetooth = MockBt(mock: MockBluetooth) | AndroidBt(android: AndroidBluetooth)

  ghost function Objects(b: Bluetooth): set<object>
  {
    match b
    case MockBt(m) => {m}
    case AndroidBt(a) => {a}
  }

  /** `is_connected` of whichever transport `b` is. */
  function IsConnected(b: Bluetooth): bool
    reads Objects(b)
  {
    match b
    case MockBt(m) => m.IsConnected()
    case AndroidBt(a) => a.IsConnected()
  }

  /** Whether a send succeeds now, given the stream fault the Android link would meet. */
  function Accepts(b: Bluetooth, fault: Option<string>): bool
    reads Objects(b)
  {
    match b
    case MockBt(m) => m.connected
    case AndroidBt(a) => a.connected && a.hasOutStream && fault.None?
  }

  /** What the Android link's stream has received; the mock has no stream. */
  function Written(b: Bluetooth): seq<string>
    reads Objects(b)
  {
    match b
    case MockBt(_) => []
    case AndroidBt(a) => a.written
  }

  /** `get_bluetooth`: the Android link on Android, the mock elsewhere, disconnected. */
  method GetBluetooth(isAndroid: bool) returns (b: Bluetooth)
    ensures fresh(Objects(b))
    ensures b.AndroidBt? <==> isAndroid
    ensures !IsConnected(b) && Written(b) == []
  {
    if isAndroid {
      var a := new AndroidBluetooth();
      b := AndroidBt(a);
    } else {
      var m := new MockBluetooth();
      b := MockBt(m);
    }
  }

  /** Ready to send: connected, and for the Android link an output stream is open. */
  function Ready(b: Bluetooth): bool
    reads Objects(b)
  {
    match b
    case MockBt(m) => m.connected
    case AndroidBt(a) => a.connected && a.hasOutStream
  }

  /** Sends through whichever transport `b` is; the connection state never changes, and only
      an accepted send reaches the stream. */
  method Send(b: Bluetooth, text: string, fault: Option<string>) returns (ok: bool, msg: string)
    modifies Objects(b)
    ensures ok == old(Accepts(b, fault))
    ensures IsConnected(b) == old(IsConnected(b))
    ensures !old(IsConnected(b)) ==> msg == "No conectado"
    ensures Written(b) == old(Written(b)) + (if ok && b.AndroidBt? then [WithNewline(text)] else [])
    ensures Ready(b) == old(Ready(b)) && Accepts(b, fault) == old(Accepts(b, fault))
    ensures b.MockBt? ==> unchanged(b.mock)
  {
    match b
    case MockBt(m) =>
      ok, msg := m.Send(text);
    case AndroidBt(a) =>
      ok, msg := a.Send(text, fault);
  }
}
