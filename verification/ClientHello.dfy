/** The TLS sniffer: a cursor moves over the bytes, every step guarded. */
module ClientHello {
  import opened ClientHelloSpec

  /** Reads the server name from a ClientHello. */
  method ReadClientHello(bytes: seq<Byte>) returns (r: Sniffed)
    ensures r == Hello(bytes)
  {
    hide Number, Body, ExtensionsScan;
    var data := bytes;
    if |data| < 42 {
      return NoClue;
    }
    var sessionIdLen: nat := data[38];
    if sessionIdLen > 32 || |data| < 39 + sessionIdLen {
      return NoClue;
    }
    data := data[39 + sessionIdLen..];
    if |data| < 2 {
      return NoClue;
    }
    var cipherSuiteLen := Number(data[0], data[1]);
    if cipherSuiteLen % 2 == 1 || |data| < 2 + cipherSuiteLen {
      return NotClientHello;
    }
    data := data[2 + cipherSuiteLen..];
    if |data| < 1 {
      return NoClue;
    }
    var compressionMethodsLen: nat := data[0];
    if |data| < 1 + compressionMethodsLen {
      return NoClue;
    }
    data := data[1 + compressionMethodsLen..];
    r := ReadExtensions(data);
  }

  /** The part from the length of the extensions on. */
  method ReadExtensions(bytes: seq<Byte>) returns (r: Sniffed)
    ensures r == Body(bytes)
  {
    hide Number, ListScan;
    var data := bytes;
    if |data| == 0 {
      return NotClientHello;
    }
    if |data| < 2 {
      return NotClientHello;
    }
    var extensionsLength := Number(data[0], data[1]);
    data := data[2..];
    if extensionsLength != |data| {
      return NotClientHello;
    }
    while |data| != 0
      invariant FromScan(ExtensionsScan(data)) == Body(bytes)
      decreases |data|
    {
      if |data| < 4 {
        return NotClientHello;
      }
      var extension, length := Number(data[0], data[1]), Number(data[2], data[3]);
      data := data[4..];
      if |data| < length {
        return NotClientHello;
      }
      if extension == 0 {
        var found := ReadNames(data[..length]);
        if found != Nothing {
          return FromScan(found);
        }
      }
      data := data[length..];
    }
    return NotTls;
  }

  /** The names of one server_name extension. */
  method ReadNames(body: seq<Byte>) returns (r: Scan)
    ensures r == ListScan(body)
  {
    hide Number;
    var d := body;
    if |d| < 2 {
      return Broken;
    }
    var namesLen := Number(d[0], d[1]);
    d := d[2..];
    if |d| != namesLen {
      return Broken;
    }
    while |d| > 0
      invariant NamesScan(d) == ListScan(body)
      decreases |d|
    {
      if |d| < 3 {
        return Broken;
      }
      var nameType, nameLen := d[0], Number(d[1], d[2]);
      d := d[3..];
      if |d| < nameLen {
        return Broken;
      }
      if nameType == 0 {
        var serverName := d[..nameLen];
        if EndsInDot(serverName) {
          return Broken;
        }
        return Host(serverName);
      }
      d := d[nameLen..];
    }
    return Nothing;
  }

  method SniffTls(b: seq<Byte>) returns (r: Sniffed)
    ensures r == Record(b)
  {
    hide Number, Hello;
    if |b| < 5 {
      return NoClue;
    }
    if b[0] != 0x16 {
      return NotTls;
    }
    if b[1] != 3 {
      return NotTls;
    }
    var headerLen := Number(b[3], b[4]);
    if 5 + headerLen > |b| {
      return NoClue;
    }
    r := ReadClientHello(b[5..5 + headerLen]);
  }
}
