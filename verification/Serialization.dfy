/** lib/http/serialization.c: messages are written piece by piece to a growing buffer. */
module Serialization {
  import opened Text
  import opened Http
  import opened HttpSyntax
  import opened StringBuilders

  /** Appends `text` to a builder whose contents are, so far, `before` and then `done`. */
  method AppendTo(builder: StringBuilder, ghost before: string, ghost done: string, text: string)
    requires builder.Valid() && builder.Contents() == before + done
    modifies builder, builder.data
    ensures builder.Valid() && (builder.data == old(builder.data) || fresh(builder.data))
    ensures builder.Contents() == before + (done + text)
  {
    builder.Append(text);
  }

  method SerializeMethod(m: Method, builder: StringBuilder)
    requires builder.Valid()
    modifies builder, builder.data
    ensures builder.Valid() && (builder.data == old(builder.data) || fresh(builder.data))
    ensures builder.Contents() == old(builder.Contents()) + MethodText(m)
  {
    if m == Get {
      builder.Append("GET");
    } else if m == Head {
      builder.Append("HEAD");
    } else if m == Post {
      builder.Append("POST");
    } else if m == Put {
      builder.Append("PUT");
    } else if m == Delete {
      builder.Append("DELETE");
    } else if m == Connect {
      builder.Append("CONNECT");
    } else if m == Options {
      builder.Append("OPTIONS");
    } else if m == Trace {
      builder.Append("TRACE");
    } else {
      builder.Append("PATCH");
    }
  }

  method SerializeHttpVersion(v: Version, builder: StringBuilder)
    requires builder.Valid()
    modifies builder, builder.data
    ensures builder.Valid() && (builder.data == old(builder.data) || fresh(builder.data))
    ensures builder.Contents() == old(builder.Contents()) + VersionText(v)
  {
    if v == Http09 {
      builder.Append("HTTP/0.9");
    } else if v == Http10 {
      builder.Append("HTTP/1.0");
    } else {
      builder.Append("HTTP/1.1");
    }
  }

  /** Fills three characters from the right with the last digit of what remains of the code. */
  method SerializeStatusCode(statusCode: int, builder: StringBuilder)
    requires builder.Valid()
    modifies builder, builder.data
    ensures builder.Valid() && (builder.data == old(builder.data) || fresh(builder.data))
    ensures builder.Contents() == old(builder.Contents()) + StatusText(statusCode)
  {
    var str := new char[3];
    var code := statusCode;
    var i := 0;
    while i < 3
      invariant 0 <= i <= 3
      invariant code == (if i == 0 then statusCode
                         else if i == 1 then TruncDiv10(statusCode)
                         else if i == 2 then TruncDiv10(TruncDiv10(statusCode))
                         else TruncDiv10(TruncDiv10(TruncDiv10(statusCode))))
      invariant i >= 1 ==> str[2] == StatusText(statusCode)[2]
      invariant i >= 2 ==> str[1] == StatusText(statusCode)[1]
      invariant i >= 3 ==> str[0] == StatusText(statusCode)[0]
      modifies str
    {
      str[2 - i] := LastDigit(code);
      code := TruncDiv10(code);
      i := i + 1;
    }
    assert str[..] == StatusText(statusCode);
    builder.Append(str[..]);
  }

  lemma FieldsTextSnoc(fs: seq<Field>, i: nat)
    requires i < |fs|
    ensures FieldsText(fs[..i + 1]) == FieldsText(fs[..i]) + FieldText(fs[i])
  {
    if i == 0 {
      assert fs[..1] == [fs[0]] && fs[..0] == [];
      assert FieldsText([fs[0]]) == FieldText(fs[0]) + FieldsText([]);
    } else {
      FieldsTextSnoc(fs[1..], i - 1);
      assert fs[..i + 1][1..] == fs[1..][..i] && fs[..i][1..] == fs[1..][..i - 1];
      assert fs[..i + 1][0] == fs[0] && fs[..i][0] == fs[0] && fs[1..][i - 1] == fs[i];
    }
  }

  method SerializeField(f: Field, builder: StringBuilder)
    requires builder.Valid()
    modifies builder, builder.data
    ensures builder.Valid() && (builder.data == old(builder.data) || fresh(builder.data))
    ensures builder.Contents() == old(builder.Contents()) + FieldText(f)
  {
    builder.Append(f.name);
    builder.Append(":");
    builder.Append(f.value);
    builder.Append("\r\n");
  }

  method SerializeHttpHeader(head: Header, builder: StringBuilder) returns (err: bool)
    requires builder.Valid()
    modifies builder, builder.data
    ensures builder.Valid() && (builder.data == old(builder.data) || fresh(builder.data))
    ensures err <==> HeaderText(head).None?
    ensures builder.Contents() == old(builder.Contents()) + if err then "" else HeaderText(head).value
  {
    hide FieldText;
    if head.AsStruct? {
      ghost var before, block := builder.Contents(), builder.data;
      var i := 0;
      while i < |head.fields|
        invariant 0 <= i <= |head.fields| && builder.Valid()
        invariant builder.data == block || fresh(builder.data)
        invariant builder.Contents() == before + FieldsText(head.fields[..i])
      {
        FieldsTextSnoc(head.fields, i);
        SerializeField(head.fields[i], builder);
        i := i + 1;
      }
      assert head.fields[..|head.fields|] == head.fields;
    } else if head.AsString? {
      builder.Append(head.text);
    } else {
      return true;
    }
    err := false;
  }

  /** Header, blank line and body. A header that owns its string stops the message after its first line. */
  method SerializeTail(head: Header, body: string, builder: StringBuilder) returns (err: bool)
    requires builder.Valid()
    modifies builder, builder.data
    ensures builder.Valid() && (builder.data == old(builder.data) || fresh(builder.data))
    ensures err <==> HeaderText(head).None?
    ensures builder.Contents() ==
            old(builder.Contents()) + if err then "" else HeaderText(head).value + CRLF + body
  {
    hide HeaderText;
    err := SerializeHttpHeader(head, builder);
    if err { return; }
    builder.Append("\r\n");
    if |body| > 0 {
      builder.Append(body);
    }
  }

  method SerializeRequestLine(req: Request, builder: StringBuilder)
    requires builder.Valid()
    modifies builder, builder.data
    ensures builder.Valid() && (builder.data == old(builder.data) || fresh(builder.data))
    ensures builder.Contents() == old(builder.Contents()) + RequestLineText(req)
  {
    hide MethodText;
    hide VersionText;
    ghost var before := builder.Contents();
    SerializeMethod(req.meth, builder);
    ghost var t := MethodText(req.meth);
    AppendTo(builder, before, t, " ");
    AppendTo(builder, before, t + " ", req.url);
    AppendTo(builder, before, t + " " + req.url, " ");
    SerializeHttpVersion(req.version, builder);
    t := t + " " + req.url + " ";
    assert builder.Contents() == before + (t + VersionText(req.version));
    AppendTo(builder, before, t + VersionText(req.version), "\r\n");
  }

  method SerializeHttpRequest(req: Request, builder: StringBuilder) returns (err: bool)
    requires builder.Valid()
    modifies builder, builder.data
    ensures builder.Valid() && (builder.data == old(builder.data) || fresh(builder.data))
    ensures match RequestText(req)
            case None => err && builder.Contents() == old(builder.Contents()) + RequestLineText(req)
            case Some(text) => !err && builder.Contents() == old(builder.Contents()) + text
  {
    hide HeaderText;
    hide RequestLineText;
    SerializeRequestLine(req, builder);
    err := SerializeTail(req.head, req.body, builder);
    if !err {
      TailAssoc(old(builder.Contents()), RequestLineText(req), HeaderText(req.head).value, req.body);
    }
  }

  lemma TailAssoc(before: string, line: string, head: string, body: string)
    ensures before + line + (head + CRLF + body) == before + (line + head + CRLF + body)
  {
  }

  method SerializeStatusLine(resp: Response, builder: StringBuilder)
    requires builder.Valid()
    modifies builder, builder.data
    ensures builder.Valid() && (builder.data == old(builder.data) || fresh(builder.data))
    ensures builder.Contents() == old(builder.Contents()) + StatusLineText(resp)
  {
    hide StatusText;
    hide VersionText;
    ghost var before := builder.Contents();
    SerializeHttpVersion(resp.version, builder);
    ghost var t := VersionText(resp.version);
    AppendTo(builder, before, t, " ");
    SerializeStatusCode(resp.statusCode, builder);
    assert builder.Contents() == before + (t + " " + StatusText(resp.statusCode));
    t := t + " " + StatusText(resp.statusCode);
    AppendTo(builder, before, t, " ");
    AppendTo(builder, before, t + " ", resp.statusMsg);
    AppendTo(builder, before, t + " " + resp.statusMsg, "\r\n");
  }

  method SerializeHttpResponse(resp: Response, builder: StringBuilder) returns (err: bool)
    requires builder.Valid()
    modifies builder, builder.data
    ensures builder.Valid() && (builder.data == old(builder.data) || fresh(builder.data))
    ensures match ResponseText(resp)
            case None => err && builder.Contents() == old(builder.Contents()) + StatusLineText(resp)
            case Some(text) => !err && builder.Contents() == old(builder.Contents()) + text
  {
    hide HeaderText;
    hide StatusLineText;
    SerializeStatusLine(resp, builder);
    err := SerializeTail(resp.head, resp.body, builder);
    if !err {
      TailAssoc(old(builder.Contents()), StatusLineText(resp), HeaderText(resp.head).value, resp.body);
    }
  }
}
