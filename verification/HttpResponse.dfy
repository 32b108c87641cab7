/** The response object the callbacks fill in, piece by piece. */
module HttpResponses {
  import opened HttpBytes
  import opened HttpParserState
  import opened HttpTrace

  class HttpResponse {
    var statusCode: nat
    var statusMessage: seq<byte>
    var headerFields: seq<seq<byte>>
    var headerValues: seq<seq<byte>>
    var concatHeaderField: bool
    var concatHeaderValue: bool
    var isMessageCompleted: bool
    var body: seq<byte>
    var bodyLength: nat

    ghost function View(): Response
      reads this
    {
      Response(statusCode, headerFields, headerValues, concatHeaderField, concatHeaderValue, body, bodyLength,
               isMessageCompleted)
    }

    constructor ()
      ensures View() == NO_RESPONSE && statusMessage == []
    {
      statusCode, statusMessage := 0, [];
      headerFields, headerValues := [], [];
      concatHeaderField, concatHeaderValue := false, false;
      isMessageCompleted, body, bodyLength := false, [], 0;
    }

    method SetStatus(code: nat, message: seq<byte>)
      modifies this
      ensures View() == ConsumeData(old(View()), Status(code), message) && statusMessage == message
    {
      statusCode := code;
      statusMessage := message;
    }

    method SetHeaderField(field: seq<byte>)
      modifies this
      ensures View() == ConsumeData(old(View()), Field, field) && statusMessage == old(statusMessage)
    {
      concatHeaderValue := false;
      var n := |headerFields|;
      if concatHeaderField && n > 0 {
        headerFields := headerFields[n - 1 := headerFields[n - 1] + field];
      } else {
        headerFields := headerFields + [field];
      }
      concatHeaderField := true;
    }

    method SetHeaderValue(value: seq<byte>)
      modifies this
      ensures View() == ConsumeData(old(View()), Value, value) && statusMessage == old(statusMessage)
    {
      concatHeaderField := false;
      var n := |headerValues|;
      if concatHeaderValue && n > 0 {
        headerValues := headerValues[n - 1 := headerValues[n - 1] + value];
      } else {
        headerValues := headerValues + [value];
      }
      concatHeaderValue := true;
    }

    method SetBody(at: seq<byte>)
      modifies this
      ensures View() == ConsumeData(old(View()), Body, at) && statusMessage == old(statusMessage)
    {
      bodyLength := bodyLength + |at|;
      body := body + at;
    }

    method SetMessageComplete()
      modifies this
      ensures View() == old(View()).(complete := true) && statusMessage == old(statusMessage)
    {
      isMessageCompleted := true;
    }
  }
}
