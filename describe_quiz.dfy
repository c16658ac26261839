/**
  The quiz-description handler (describeQuiz/lambda_function.py, and its
  byte-identical copy lambda-functions/describeQuiz/lambda_function.py): it
  checks the event, splits the document's S3 URI into bucket and key, picks
  the question-selection instruction, builds the request for the language
  model and wraps the outcome in a 200 or 500 response.

  The model call and the JSON parsing of its reply are foreign; their outcome
  is an input (`Reply`).
*/
module DescribeQuiz {
  import opened Options
  import opened Strings

  // ---------------------------------------------------------------------------
  // Events, requests and responses
  // ---------------------------------------------------------------------------

  /**
    The `question_number` entry of the event: missing (the handler then uses
    1), an integer, or some other value, named by its Python type name.
  */
  datatype QuestionField = Absent | Number(n: int) | Other(typeName: string)

  /** The event: `s3_uri` and `bucket_owner` are `None` when the key is missing. */
  datatype Event = Event(s3Uri: Option<string>, bucketOwner: Option<string>, questionNumber: QuestionField)

  /** The request sent to the language model, without the sampling parameters. */
  datatype Request = Request(
    modelId: string,
    documentFormat: string,
    documentName: string,
    documentUri: string,
    bucketOwner: string,
    userText: string,
    maxTokens: nat)

  /**
    What came back from the model call: the model's text parsed as JSON and
    serialised again, or the message of the exception raised by the call, by
    the reply lookup or by the parse.
  */
  datatype Reply = Parsed(json: string) | Raised(message: string)

  /** A response body: JSON text from the model, or `{"error": message}`. */
  datatype Body = Json(text: string) | ErrorObject(message: string)

  datatype Response = Response(statusCode: int, body: Body)

  const ModelId := "us.amazon.nova-lite-v1:0"

  const MaxTokens: nat := 3000

  const ValidationMessage := "Both 's3_uri' and 'bucket_owner' must be provided in the event."

  const UriScheme := "s3://"

  const FirstInstruction := "Choose the first of these questions."

  const InstructionLead := "Choose the "

  const InstructionTail := " of these questions."

  /** The user text before the instruction. */
  const PromptLead := "Identify the lesson name present in the document. Identify all the questions present in the document. "

  /** The start of the user text after the instruction; the rest is prose. */
  const PromptTail := " Write down the chosen question and ensure it is trimmed of any extra whitespace."

  // ---------------------------------------------------------------------------
  // Validation
  // ---------------------------------------------------------------------------

  /** Python truthiness of an optional string: present and non-empty. */
  predicate Provided(o: Option<string>)
  {
    o.Some? && o.value != ""
  }

  predicate Valid(event: Event)
  {
    Provided(event.s3Uri) && Provided(event.bucketOwner)
  }

  // ---------------------------------------------------------------------------
  // The S3 URI
  // ---------------------------------------------------------------------------

  /** The URI with every `s3://` deleted. */
  function Stripped(uri: string): string
  {
    RemoveAll(uri, UriScheme)
  }

  /**
    Bucket and key: the first `/`-separated part of the stripped URI, and the
    remaining parts joined again with `/`.
  */
  function SplitS3Uri(uri: string): (r: (string, string))
    ensures '/' !in r.0
  {
    var parts := Split(Stripped(uri), '/');
    (parts[0], Join("/", parts[1..]))
  }

  /**
    The bucket is the stripped URI up to its first `/` and the key everything
    after that `/`; with no `/` the bucket is the whole stripped URI and the
    key is empty.
  */
  lemma {:induction false} SplitAtFirstSlash(uri: string)
    ensures var s := Stripped(uri);
      if '/' in s then SplitS3Uri(uri) == (s[..IndexOf(s, '/')], s[IndexOf(s, '/') + 1..])
      else SplitS3Uri(uri) == (s, "")
  {
    var s := Stripped(uri);
    if '/' in s {
      JoinTail(s, '/');
    }
  }

  /** When the stripped URI has a `/`, bucket, `/` and key give it back. */
  lemma {:induction false} SplitReconstructs(uri: string)
    requires '/' in Stripped(uri)
    ensures SplitS3Uri(uri).0 + "/" + SplitS3Uri(uri).1 == Stripped(uri)
  {
    var s := Stripped(uri);
    SplitAtFirstSlash(uri);
    assert s == s[..IndexOf(s, '/')] + "/" + s[IndexOf(s, '/') + 1..];
  }

  /**
    A well-formed URI splits into the bucket and key it was written from,
    provided `s3://` occurs nowhere after the leading one.
  */
  lemma {:induction false} SplitRoundTrip(bucket: string, key: string)
    requires '/' !in bucket
    requires !Occurs(bucket + "/" + key, UriScheme)
    ensures SplitS3Uri(UriScheme + bucket + "/" + key) == (bucket, key)
  {
    var rest := bucket + "/" + key;
    assert UriScheme + bucket + "/" + key == UriScheme + rest;
    RemoveAllLeading(UriScheme, rest);
    RemoveAllNoOccurrence(rest, UriScheme);
    SplitStripped(UriScheme + rest, bucket, key);
  }

  /** A stripped URI of the form bucket `/` key, with no `/` in the bucket, splits into that bucket and key. */
  lemma {:induction false} SplitStripped(uri: string, bucket: string, key: string)
    requires '/' !in bucket
    requires Stripped(uri) == bucket + "/" + key
    ensures SplitS3Uri(uri) == (bucket, key)
  {
    var s := Stripped(uri);
    assert s[|bucket|] == '/';
    IndexOfIsFirst(s, '/');
    assert IndexOf(s, '/') == |bucket|;
    SplitAtFirstSlash(uri);
    assert s[..|bucket|] == bucket;
    assert s[|bucket| + 1..] == key;
  }

  /**
    `replace` deletes an `s3://` in the middle of the URI as well: a URI whose
    key is itself an `s3://` URI loses both schemes.
  */
  lemma {:induction false} StrippedInnerScheme(bucket: string, key: string)
    requires '/' !in bucket
    requires !Occurs(key, UriScheme)
    ensures Stripped(UriScheme + bucket + "/" + UriScheme + key) == bucket + "/" + key
  {
    var x := bucket + "/";
    var s := x + (UriScheme + key);
    // No occurrence of the scheme starts inside the bucket or at its slash:
    // each candidate window has a position where it differs from the scheme.
    forall i: nat | i < |x| ensures !OccursAt(s, UriScheme, i) {
      if i + |UriScheme| <= |s| {
        var w := s[i..i + |UriScheme|];
        if i + 3 < |bucket| {
          assert w[3] == bucket[i + 3];
          assert w[3] != UriScheme[3];
        } else if i + 3 == |bucket| {
          assert w[4] == UriScheme[0];
          assert w[4] != UriScheme[4];
        } else {
          var k := |bucket| - i;
          assert w[k] == '/';
          assert w[k] != UriScheme[k];
        }
      }
    }
    assert UriScheme + bucket + "/" + UriScheme + key == UriScheme + s;
    RemoveAllLeading(UriScheme, s);
    RemoveAllKeepsUnmatched(x, UriScheme + key, UriScheme);
    RemoveAllLeading(UriScheme, key);
    RemoveAllNoOccurrence(key, UriScheme);
  }

  /** So such a URI splits into the bucket and the inner URI's path. */
  lemma {:induction false} SplitInnerScheme(bucket: string, key: string)
    requires '/' !in bucket
    requires !Occurs(key, UriScheme)
    ensures SplitS3Uri(UriScheme + bucket + "/" + UriScheme + key) == (bucket, key)
  {
    StrippedInnerScheme(bucket, key);
    SplitStripped(UriScheme + bucket + "/" + UriScheme + key, bucket, key);
  }

  // ---------------------------------------------------------------------------
  // The question-selection instruction
  // ---------------------------------------------------------------------------

  /** Outcome of an evaluation step that can raise: the value, or the message. */
  function QuestionNumber(field: QuestionField): (r: Result<int>)
    ensures r.Ok? <==> !field.Other?
    ensures field.Absent? ==> r == Ok(1)
  {
    match field
    case Absent => Ok(1)
    case Number(n) => Ok(n)
    case Other(t) => Err("'>' not supported between instances of '" + t + "' and 'int'")
  }

  /**
    The instruction naming the question to choose: the bare numeral for
    numbers above 1, "first" for everything else.
  */
  function Instruction(q: int): (r: string)
    ensures q <= 1 ==> r == FirstInstruction
    ensures q > 1 ==> |r| == |InstructionLead| + |NatToString(q)| + |InstructionTail|
  {
    if q > 1 then InstructionLead + NatToString(q) + InstructionTail else FirstInstruction
  }

  /** For numbers above 1 the numeral sits between the fixed lead and tail. */
  lemma {:induction false} InstructionNumeral(q: int)
    requires q > 1
    ensures Instruction(q)[..|InstructionLead|] == InstructionLead
    ensures Instruction(q)[|InstructionLead|..|Instruction(q)| - |InstructionTail|] == NatToString(q)
    ensures Instruction(q)[|Instruction(q)| - |InstructionTail|..] == InstructionTail
  {
  }

  /** An instruction with a numeral never reads "first". */
  lemma {:induction false} NumeralIsNotFirst(q: int)
    requires q > 1
    ensures Instruction(q) != FirstInstruction
  {
    var r := Instruction(q);
    InstructionNumeral(q);
    assert r[|InstructionLead|] == NatToString(q)[0];
    assert IsDigit(NatToString(q)[0]);
    assert FirstInstruction[|InstructionLead|] == 'f';
  }

  /**
    Two question numbers give the same instruction exactly when they are
    equal or both at most 1.
  */
  lemma {:induction false} InstructionInjective(q: int, q': int)
    ensures Instruction(q) == Instruction(q') <==> q == q' || (q <= 1 && q' <= 1)
  {
    if q > 1 && q' > 1 {
      if Instruction(q) == Instruction(q') {
        InstructionNumeral(q);
        InstructionNumeral(q');
        NatToStringInjective(q, q');
      }
    } else if q > 1 {
      NumeralIsNotFirst(q);
    } else if q' > 1 {
      NumeralIsNotFirst(q');
    }
  }

  /** With no `question_number` the instruction asks for the first question. */
  lemma DefaultIsFirst(event: Event)
    requires event.questionNumber.Absent?
    ensures Instruction(QuestionNumber(event.questionNumber).value) == FirstInstruction
  {
  }

  /** The number is printed as a bare numeral, without an ordinal suffix. */
  lemma SecondQuestion()
    ensures Instruction(2) == "Choose the 2 of these questions."
  {
    assert NatToString(2) == "2";
    assert Instruction(2) == InstructionLead + "2" + InstructionTail;
  }

  // ---------------------------------------------------------------------------
  // The request and the response
  // ---------------------------------------------------------------------------

  /** The user text: a fixed lead, the instruction, then fixed prose. */
  function UserText(q: int): string
  {
    PromptLead + Instruction(q) + PromptTail
  }

  /** The instruction can be read back from the user text at a fixed place. */
  lemma {:induction false} UserTextInstruction(q: int)
    ensures |UserText(q)| == |PromptLead| + |Instruction(q)| + |PromptTail|
    ensures UserText(q)[|PromptLead|..|PromptLead| + |Instruction(q)|] == Instruction(q)
  {
  }

  /** So the user texts of two question numbers agree exactly when their instructions do. */
  lemma {:induction false} UserTextInjective(q: int, q': int)
    ensures UserText(q) == UserText(q') <==> Instruction(q) == Instruction(q')
  {
    if UserText(q) == UserText(q') {
      UserTextInstruction(q);
      UserTextInstruction(q');
    }
  }

  /**
    Everything the handler evaluates before the model call: the request, or
    the message of the exception raised first (the validation, then the
    comparison of the question number).
  */
  function PrepareRequest(event: Event): (r: Result<Request>)
    ensures !Valid(event) ==> r == Err(ValidationMessage)
    ensures r.Ok? <==> Valid(event) && !event.questionNumber.Other?
    ensures Valid(event) && event.questionNumber.Other? ==> r == Err(QuestionNumber(event.questionNumber).error)
    ensures r.Ok? ==> r.value.documentUri == event.s3Uri.value && r.value.bucketOwner == event.bucketOwner.value
    ensures r.Ok? ==> r.value.documentName == SplitS3Uri(event.s3Uri.value).1
    ensures r.Ok? ==> r.value.userText == UserText(QuestionNumber(event.questionNumber).value)
    ensures r.Ok? ==> r.value.modelId == ModelId && r.value.documentFormat == "pdf" && r.value.maxTokens == MaxTokens
  {
    if !Valid(event) then Err(ValidationMessage)
    else
      var uri := event.s3Uri.value;
      var (_, fileKey) := SplitS3Uri(uri);
      match QuestionNumber(event.questionNumber)
      case Err(message) => Err(message)
      case Ok(q) => Ok(Request(ModelId, "pdf", fileKey, uri, event.bucketOwner.value, UserText(q), MaxTokens))
  }

  /** The request names the document by the key of a well-formed URI. */
  lemma {:induction false} RequestNamesKey(bucket: string, key: string, owner: string, field: QuestionField)
    requires '/' !in bucket
    requires !Occurs(bucket + "/" + key, UriScheme)
    requires owner != "" && !field.Other?
    ensures var r := PrepareRequest(Event(Some(UriScheme + bucket + "/" + key), Some(owner), field));
      r.Ok? && r.value.documentName == key
  {
    SplitRoundTrip(bucket, key);
  }

  /** The request asks for the question the event names. */
  lemma {:induction false} RequestAsksForQuestion(event: Event, n: int)
    requires Valid(event) && event.questionNumber == Number(n)
    ensures PrepareRequest(event).Ok?
    ensures PrepareRequest(event).value.userText == UserText(n)
  {
  }

  /**
    The handler's response, given the model call as a function from the
    request it is sent to what comes back: 200 with the model's JSON, or 500
    with the message of the first exception.
  */
  function LambdaHandler(event: Event, model: Request -> Reply): (r: Response)
    ensures r.statusCode == 200 || r.statusCode == 500
    ensures PrepareRequest(event).Err? ==> r == Response(500, ErrorObject(PrepareRequest(event).error))
    ensures !Valid(event) ==> r == Response(500, ErrorObject(ValidationMessage))
    ensures PrepareRequest(event).Ok? ==>
      var reply := model(PrepareRequest(event).value);
      (r.statusCode == 200 <==> reply.Parsed?) &&
      (reply.Parsed? ==> r.body == Json(reply.json)) &&
      (reply.Raised? ==> r == Response(500, ErrorObject(reply.message)))
  {
    match PrepareRequest(event)
    case Err(message) => Response(500, ErrorObject(message))
    case Ok(request) =>
      match model(request)
      case Parsed(json) => Response(200, Json(json))
      case Raised(message) => Response(500, ErrorObject(message))
  }

  /** An invalid event never reaches the model: the response is the same whatever the model does. */
  lemma {:induction false} InvalidEventRejected(event: Event, model: Request -> Reply, model': Request -> Reply)
    requires !Valid(event)
    ensures LambdaHandler(event, model) == LambdaHandler(event, model')
  {
  }

  /**
    The model is asked once, with the request built from the event: two model
    calls that agree on that request give the same response.
  */
  lemma {:induction false} ResponseDependsOnRequest(event: Event, model: Request -> Reply, model': Request -> Reply)
    requires PrepareRequest(event).Ok?
    requires model(PrepareRequest(event).value) == model'(PrepareRequest(event).value)
    ensures LambdaHandler(event, model) == LambdaHandler(event, model')
  {
  }

  /** A valid event with a numeric question succeeds exactly when the reply parses. */
  lemma {:induction false} ValidEventOutcome(event: Event, model: Request -> Reply)
    requires Valid(event) && !event.questionNumber.Other?
    ensures PrepareRequest(event).Ok?
    ensures LambdaHandler(event, model).statusCode == 200 <==> model(PrepareRequest(event).value).Parsed?
  {
  }

  /** A missing URI with a present owner is the validation error. */
  lemma MissingUri()
    ensures LambdaHandler(Event(None, Some("owner"), Absent), _ => Parsed("{}")) == Response(500, ErrorObject(ValidationMessage))
  {
  }

  /** An empty owner fails validation just like a missing one. */
  lemma EmptyOwner()
    ensures LambdaHandler(Event(Some("s3://b/k.pdf"), Some(""), Number(3)), _ => Parsed("{}")).statusCode == 500
  {
  }
}
