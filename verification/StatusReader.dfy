/** Reading a status report: a reader that knows only the quotation marks and the words between them
    gets back, from the report of a list of devices, these devices. */
module StatusReader {
  import opened Common
  import opened UtilsList
  import opened StatusSync

  /** `printf` with only `%s` conversions. */
  function Printf(format: string, args: seq<string>): string {
    if format == "" then ""
    else if |format| >= 2 && format[0] == '%' && format[1] == 's' && args != [] then
      args[0] + Printf(format[2..], args[1..])
    else [format[0]] + Printf(format[1..], args)
  }

  lemma {:induction false} PrintfPlain(plain: string, format: string, args: seq<string>)
    requires '%' !in plain
    ensures Printf(plain + format, args) == plain + Printf(format, args)
  {
    if plain == "" {
      assert plain + format == format;
    } else {
      var rest := plain[1..];
      assert (plain + format)[1..] == rest + format;
      PrintfPlain(rest, format, args);
      assert plain == [plain[0]] + rest;
    }
  }

  lemma {:induction false} PrintTwo(a: string, b: string, c: string, p: string, q: string)
    requires '%' !in a && '%' !in b && '%' !in c
    ensures Printf(a + ("%s" + (b + ("%s" + c))), [p, q]) == a + (p + (b + (q + c)))
  {
    hide Printf;
    PrintfPlain(a, "%s" + (b + ("%s" + c)), [p, q]);
    PrintfArg(b + ("%s" + c), p, [q]);
    PrintfPlain(b, "%s" + c, [q]);
    PrintfArg(c, q, []);
    PrintfRest(c);
    assert [p] + [q] == [p, q] && [q] + [] == [q];
  }

  lemma {:induction false} PrintfRest(c: string)
    requires '%' !in c
    ensures Printf(c, []) == c
  {
    PrintfPlain(c, "", []);
    assert c + "" == c;
  }

  const DEVICE_LIST_INFO := "{\"productSN\": \"%s\",\"deviceSN\": \"%s\"}"

  /** The text of a device is the format with its serials put in, whatever they are. */
  lemma {:induction false} DeviceTextIsPrinted(d: Device)
    ensures DEVICE_LIST_INFO == "{\"productSN\": \"%s\",\"deviceSN\": \"%s\"}"
    ensures DeviceText(d) == Printf(DEVICE_LIST_INFO, [d.productSn, d.deviceSn])
  {
    hide Printf;
    var a, b, c := "{\"productSN\": \"", "\",\"deviceSN\": \"", "\"}";
    assert DEVICE_LIST_INFO == a + ("%s" + (b + ("%s" + c))) && '%' !in a && '%' !in b && '%' !in c;
    assert DeviceText(d) == a + d.productSn + b + d.deviceSn + c;
    hide *;
    PrintTwo(a, b, c, d.productSn, d.deviceSn);
    GroupRight(a, d.productSn, b, d.deviceSn, c);
  }

  lemma {:induction false} GroupRight(a: string, b: string, c: string, d: string, e: string)
    ensures a + b + c + d + e == a + (b + (c + (d + e)))
  {
  }

  lemma {:induction false} PrintfArg(format: string, arg: string, args: seq<string>)
    ensures Printf("%s" + format, [arg] + args) == arg + Printf(format, args)
  {
    var f, g := "%s" + format, [arg] + args;
    assert f[2..] == format && g[1..] == args;
  }

  // ------------------------------------------------------------ the reader

  /** The pieces of a text between its quotation marks. */
  function Pieces(s: string): (p: seq<string>)
    ensures |p| > 0
  {
    if s == "" then [""]
    else
      var p := Pieces(s[1..]);
      if s[0] == '"' then [""] + p else [[s[0]] + p[0]] + p[1..]
  }

  /** The devices that the pieces of a report name, if it has the form of one. */
  function ReadDevices(p: seq<string>): Option<seq<Device>> {
    if |p| < 9 then None
    else if p[1] != "productSN" || p[2] != ": " || p[4] != "," || p[5] != "deviceSN" || p[6] != ": " then None
    else if p[8] == "}" && |p| == 9 then Some([Device(p[3], p[7])])
    else if p[8] == "},{" then
      match ReadDevices(p[8..])
      case None => None
      case Some(ds) => Some([Device(p[3], p[7])] + ds)
    else None
  }

  function ReadReport(s: string): Option<seq<Device>> {
    if s == "" then Some([])
    else if Pieces(s)[0] == "{" then ReadDevices(Pieces(s))
    else None
  }

  lemma {:induction false} PiecesOf(u: string, v: string)
    requires '"' !in u
    ensures Pieces(u + "\"" + v) == [u] + Pieces(v)
    ensures Pieces(u) == [u]
  {
    if u == "" {
      assert (u + "\"" + v)[1..] == v;
    } else {
      var t := u[1..];
      assert (u + "\"" + v)[1..] == t + "\"" + v && u == [u[0]] + t;
      PiecesOf(t, v);
      assert ([t] + Pieces(v))[1..] == Pieces(v);
    }
  }

  /** Text without quotation marks in front belongs to the first piece. */
  lemma {:induction false} PiecesBehind(u: string, v: string)
    requires '"' !in u
    ensures Pieces(u + v) == [u + Pieces(v)[0]] + Pieces(v)[1..]
  {
    if u == "" {
      assert u + v == v && "" + Pieces(v)[0] == Pieces(v)[0];
    } else {
      var t := u[1..];
      assert (u + v)[1..] == t + v && u == [u[0]] + t;
      PiecesBehind(t, v);
      assert [u[0]] + (t + Pieces(v)[0]) == u + Pieces(v)[0];
    }
  }

  /** The serials of the device have no quotation mark, and its text is not cut. */
  predicate Readable(d: Device) {
    '"' !in d.productSn && '"' !in d.deviceSn && |DeviceText(d)| <= 99
  }

  lemma {:induction false} TwoPieces(u: string, v: string, w: string)
    requires '"' !in u && '"' !in v
    ensures Pieces(u + "\"" + (v + "\"" + w)) == [u, v] + Pieces(w)
  {
    hide Pieces;
    PiecesOf(u, v + "\"" + w);
    PiecesOf(v, w);
    assert [u] + ([v] + Pieces(w)) == [u, v] + Pieces(w);
  }

  lemma {:induction false} FourPieces(t: string, u: string, v: string, w: string, x: string)
    requires '"' !in t && '"' !in u && '"' !in v && '"' !in w
    ensures Pieces(t + "\"" + (u + "\"" + (v + "\"" + (w + "\"" + x)))) == [t, u, v, w] + Pieces(x)
  {
    hide Pieces;
    TwoPieces(t, u, v + "\"" + (w + "\"" + x));
    TwoPieces(v, w, x);
    assert [t, u] + ([v, w] + Pieces(x)) == [t, u, v, w] + Pieces(x);
  }

  /** The pieces of a device's text, with what follows it. */
  lemma {:induction false} DevicePieces(d: Device, after: string)
    requires Readable(d)
    ensures Pieces(DeviceText(d) + after) ==
              ["{", "productSN", ": ", d.productSn] + ([",", "deviceSN", ": ", d.deviceSn] + Pieces("}" + after))
  {
    var x := "," + "\"" + ("deviceSN" + "\"" + (": " + "\"" + (d.deviceSn + "\"" + ("}" + after))));
    TextParts(d, after, x);
    hide Pieces, DeviceText;
    FourPieces("{", "productSN", ": ", d.productSn, x);
    FourPieces(",", "deviceSN", ": ", d.deviceSn, "}" + after);
  }

  lemma {:induction false} TextParts(d: Device, after: string, x: string)
    requires x == "," + "\"" + ("deviceSN" + "\"" + (": " + "\"" + (d.deviceSn + "\"" + ("}" + after))))
    ensures DeviceText(d) + after == "{" + "\"" + ("productSN" + "\"" + (": " + "\"" + (d.productSn + "\"" + x)))
  {
    var p, q := d.productSn, d.deviceSn;
    var a, b := "{\"productSN\": \"", "\",\"deviceSN\": \"";
    assert a == "{" + "\"" + ("productSN" + "\"" + (": " + "\""));
    assert b == "\"" + ("," + "\"" + ("deviceSN" + "\"" + (": " + "\"")));
    assert "\"}" == "\"" + "}";
    JoinParts("{", "\"", "productSN", ": ", p, ",", "deviceSN", q, "}", after);
  }

  lemma {:induction false} JoinParts(o: string, k: string, n: string, m: string, p: string,
                                     c: string, l: string, q: string, z: string, after: string)
    ensures (o + k + (n + k + (m + k))) + p + (k + (c + k + (l + k + (m + k)))) + q + (k + z) + after
         == o + k + (n + k + (m + k + (p + k + (c + k + (l + k + (m + k + (q + k + (z + after))))))))
  {
  }

  // ------------------------------------------------------- reading it back

  lemma {:induction false} JoinCons(s: string, ss: seq<string>)
    ensures Join([s] + ss) == if ss == [] then s else s + "," + Join(ss)
  {
    if ss != [] {
      var m := |ss| - 1;
      var f := ss[..m];
      assert [s] + ss == ([s] + f) + [ss[m]] && ss == f + [ss[m]];
      JoinSnoc([s] + f, ss[m]);
      JoinSnoc(f, ss[m]);
      JoinCons(s, f);
      hide Join;
    } else {
      assert [s] + ss == [s];
    }
  }

  function Texts(ds: seq<Device>): (ss: seq<string>)
    ensures |ss| == |ds| && forall i :: 0 <= i < |ds| ==> ss[i] == DeviceText(ds[i])
  {
    seq(|ds|, i requires 0 <= i < |ds| => DeviceText(ds[i]))
  }

  /** What a reader of the pieces does with the first device does not depend on the first piece. */
  lemma {:induction false} FirstPieceFree(p: seq<string>, x: string)
    requires |p| > 0
    ensures ReadDevices([x] + p[1..]) == ReadDevices(p)
  {
    var q := [x] + p[1..];
    assert |p| >= 9 ==> q[8..] == p[8..] && forall i :: 1 <= i < 9 ==> q[i] == p[i];
  }

  /** Reading one device and going on behind it. */
  lemma {:induction false} ReadOne(d: Device, p: seq<string>)
    requires |p| > 0
    ensures var q := ["{", "productSN", ": ", d.productSn] + ([",", "deviceSN", ": ", d.deviceSn] + p);
            ReadDevices(q) ==
              if p == ["}"] then Some([d])
              else if p[0] == "},{" && ReadDevices(p).Some? then Some([d] + ReadDevices(p).value)
              else None
  {
    var q := ["{", "productSN", ": ", d.productSn] + ([",", "deviceSN", ": ", d.deviceSn] + p);
    assert q[8..] == p && q[8] == p[0];
    assert p == ["}"] <==> p[0] == "}" && |q| == 9;
  }

  /** The first device of a report is read, and reading goes on behind the comma. */
  lemma {:induction false} ReadFirst(d: Device, r: string, ds: seq<Device>)
    requires Readable(d) && Pieces(r)[0] == "{" && ReadDevices(Pieces(r)) == Some(ds)
    ensures var p := Pieces(DeviceText(d) + "," + r); p[0] == "{" && ReadDevices(p) == Some([d] + ds)
  {
    hide DeviceText, Pieces, ReadDevices, Readable;
    var p := Pieces("}" + ("," + r));
    BehindComma(r);
    DevicePieces(d, "," + r);
    ReadOne(d, p);
    assert DeviceText(d) + "," + r == DeviceText(d) + ("," + r);
  }

  lemma {:induction false} BehindComma(r: string)
    requires Pieces(r)[0] == "{"
    ensures var p := Pieces("}" + ("," + r));
            p[0] == "},{" && ReadDevices(p) == ReadDevices(Pieces(r)) && p != ["}"]
  {
    var x, p := Pieces(r), "},";
    assert "}" + ("," + r) == p + r && p + "{" == "},{";
    hide Pieces, ReadDevices;
    PiecesBehind(p, r);
    FirstPieceFree(x, "},{");
  }

  lemma {:induction false} ReadLast(d: Device)
    requires Readable(d)
    ensures var p := Pieces(DeviceText(d)); p[0] == "{" && ReadDevices(p) == Some([d])
  {
    hide DeviceText, Pieces, ReadDevices, Readable;
    assert DeviceText(d) + "" == DeviceText(d) && "}" + "" == "}";
    DevicePieces(d, "");
    PiecesOf("}", "");
    ReadOne(d, ["}"]);
  }

  lemma {:induction false} TextsCons(d: Device, rest: seq<Device>)
    ensures Texts([d] + rest) == [DeviceText(d)] + Texts(rest)
  {
    hide DeviceText;
    var ds := [d] + rest;
    assert forall i :: 0 <= i < |rest| ==> ds[i + 1] == rest[i];
  }

  lemma {:induction false} JoinedTexts(d: Device, rest: seq<Device>)
    requires Readable(d) && forall x :: x in rest ==> Readable(x)
    ensures var p := Pieces(Join(Texts([d] + rest))); p[0] == "{" && ReadDevices(p) == Some([d] + rest)
    decreases |rest|
  {
    hide *;
    TextsCons(d, rest);
    JoinCons(DeviceText(d), Texts(rest));
    if rest == [] {
      ReadLast(d);
      assert [d] + rest == [d];
    } else {
      JoinedTexts(rest[0], rest[1..]);
      assert [rest[0]] + rest[1..] == rest;
      ReadFirst(d, Join(Texts(rest)), rest);
    }
  }

  /** The devices of the nodes that have a value, in order. */
  function Devices(vals: seq<Option<Device>>): seq<Device> {
    if vals == [] then []
    else
      var m := |vals| - 1;
      Devices(vals[..m]) + if vals[m].Some? then [vals[m].value] else []
  }

  /** The strings of readable devices are their texts. */
  lemma {:induction false} InfosAreTexts(vals: seq<Option<Device>>)
    requires forall v :: v in vals && v.Some? ==> Readable(v.value)
    ensures Infos(vals) == Texts(Devices(vals))
    ensures forall d :: d in Devices(vals) ==> Readable(d)
  {
    hide DeviceText;
    if vals != [] {
      var m := |vals| - 1;
      InfosAreTexts(vals[..m]);
      assert vals == vals[..m] + [vals[m]];
      assert vals[m] in vals;
      if vals[m].Some? {
        InfoIsCut(vals[m].value);
      }
      hide DeviceInfo;
    }
  }

  /** From the report of any list whose devices are readable, the reader gets back exactly these
      devices, each with its product and its device serial, from the tail of the list to its head. */
  lemma {:induction false} ReportReadsBack(vals: seq<Option<Device>>)
    requires forall v :: v in vals && v.Some? ==> Readable(v.value)
    ensures ReadReport(Report(vals)) == Some(Devices(Reversed(vals)))
  {
    var rev := Reversed(vals);
    forall v | v in rev ensures v in vals {
      var i :| 0 <= i < |rev| && rev[i] == v;
    }
    hide Reversed, DeviceText, Readable, Infos, Texts, Devices, Join, Pieces, ReadDevices;
    InfosAreTexts(rev);
    var ds := Devices(rev);
    NoTexts();
    if ds != [] {
      JoinedTexts(ds[0], ds[1..]);
      assert [ds[0]] + ds[1..] == ds;
      JoinEmptyIff(Infos(rev));
    }
  }

  lemma {:induction false} NoTexts()
    ensures Join(Texts([])) == ""
  {
  }
}
