/**
 * The decision logic of the `POST /template` route. The route takes a
 * `prompt` field, asks the completion service once whether the project
 * described is a `node` or a `react` project, reads the answer by
 * substring matching with `react` checked first, and answers with a
 * prompt bundle for that archetype, or with 400, 403 or 500.
 *
 * The completion service is a parameter: a function from the messages
 * sent to what came back. The shared base instructions and the two
 * scaffold texts are loaded at start-up from files outside this model and
 * enter as a `Scaffolds` value of arbitrary strings.
 */
module TemplateRoute {
  import opened Text

  /** The project type read from the answer; `Unresolved` when the answer
      names neither. */
  datatype Archetype = Node | React | Unresolved

  /** Role tag of a chat message sent to the completion service. This route
      sends `User` messages only; `System` completes the message shape the
      service accepts. */
  datatype Role = User | System

  datatype Message = Message(role: Role, content: string)

  /** What the completion call produced: the answer text; an answer that
      is not a string (so that `trim` throws, with the given message); or a
      failed request (network, authentication, or a payload without
      `choices[0].message`), rethrown as "AI request failed". */
  datatype Completion = Reply(text: string) | NonText(error: string) | Failed

  /** The texts loaded at start-up: the shared base instructions and the
      node and react scaffolds. */
  datatype Scaffolds = Scaffolds(base: string, node: string, react: string)

  /** The JSON body `{prompts, uiPrompts}` of a successful answer. */
  datatype Bundle = Bundle(prompts: seq<string>, uiPrompts: seq<string>)

  /** The route's four answers: 400, 500, 403, and 200 with a bundle. */
  datatype Response =
    | BadRequest(message: string)
    | ServerError(error: string)
    | Forbidden(message: string)
    | Prompts(bundle: Bundle)

  /** The `prompt` field of the request body, absent or a string. */
  datatype Field = Missing | Given(value: string)

  /** The completion requests the route sent, in order, and its answer. */
  datatype Exchange = Exchange(calls: seq<seq<Message>>, response: Response)

  const Instruction: string :=
    "Return either node or react based on what you think this project should be. Only return one word: node or react."

  const Framing: string := "Here is an artifact...\n\n"

  const MissingPrompt: string := "Missing prompt"
  const Undetermined: string := "Unable to determine project type"
  const RequestFailed: string := "AI request failed"

  /** The HTTP status of each answer: only a bundle is a success; a
      missing prompt is 400 and an unresolved answer 403, the two client
      errors; and a failure is 500. */
  function Status(r: Response): (code: nat)
    ensures code == 200 <==> r.Prompts?
    ensures 400 <= code < 500 <==> r.BadRequest? || r.Forbidden?
    ensures code == 400 <==> r.BadRequest?
    ensures code == 403 <==> r.Forbidden?
    ensures code == 500 <==> r.ServerError?
  {
    match r
    case BadRequest(_) => 400
    case ServerError(_) => 500
    case Forbidden(_) => 403
    case Prompts(_) => 200
  }

  /** Two answers with the same status are the same kind of answer. */
  lemma StatusIdentifiesKind(r: Response, r': Response)
    requires Status(r) == Status(r')
    ensures r.BadRequest? == r'.BadRequest? && r.ServerError? == r'.ServerError?
    ensures r.Forbidden? == r'.Forbidden? && r.Prompts? == r'.Prompts?
  {
  }

  /** JavaScript falsiness of the field: absent or the empty string. A
      field of only whitespace is a non-empty string and passes. */
  predicate Absent(prompt: Field) {
    prompt.Missing? || prompt.value == ""
  }

  /** `word` occurs, ignoring ASCII letter case, somewhere in `answer`. */
  ghost predicate Mentions(answer: string, word: string) {
    exists k :: OccursAt(Lower(answer), word, k)
  }

  /** The one message sent: the fixed instruction, a blank line, and the
      user's prompt, with the `user` role. */
  function Request(prompt: string): (msgs: seq<Message>)
    ensures |msgs| == 1 && msgs[0].role == User
    ensures var c := msgs[0].content;
            && |c| == |Instruction| + 2 + |prompt|
            && c[..|Instruction|] == Instruction
            && c[|Instruction|..|Instruction| + 2] == "\n\n"
            && c[|Instruction| + 2..] == prompt
  {
    [Message(User, Instruction + "\n\n" + prompt)]
  }

  /** Reading the answer: trimmed and lower-cased, it is searched for
      "react" first and "node" second. Equivalently, "react" wins whenever
      it occurs anywhere in the answer in any letter case, "node" wins only
      when "react" does not occur, and otherwise the answer is
      unresolved. */
  function Classify(aiResponse: string): (a: Archetype)
    ensures a == React <==> Mentions(aiResponse, "react")
    ensures a == Node <==> !Mentions(aiResponse, "react") && Mentions(aiResponse, "node")
    ensures a == Unresolved <==> !Mentions(aiResponse, "react") && !Mentions(aiResponse, "node")
  {
    var answer := Lower(Trim(aiResponse));
    LabelsUnspaced();
    TrimmedLowerOccurrence(aiResponse, "react");
    TrimmedLowerOccurrence(aiResponse, "node");
    if Includes(answer, "react") then React
    else if Includes(answer, "node") then Node
    else Unresolved
  }

  /** The scaffold text of a resolved archetype. */
  function ScaffoldOf(a: Archetype, sc: Scaffolds): string
    requires a != Unresolved
  {
    if a == React then sc.react else sc.node
  }

  /** The bundle of a resolved archetype, or 403 for an unresolved one.
      Both bundles hold exactly one UI prompt, the archetype's scaffold,
      which ends the last full prompt after the framing line; only the
      react bundle puts the base instructions first. */
  function Assemble(a: Archetype, sc: Scaffolds): (r: Response)
    ensures r.Forbidden? || r.Prompts?
    ensures r.Forbidden? <==> a == Unresolved
    ensures r.Forbidden? ==> r.message == Undetermined
    ensures r.Prompts? ==>
              var p := r.bundle.prompts;
              && r.bundle.uiPrompts == [ScaffoldOf(a, sc)]
              && |p| == (if a == React then 2 else 1)
              && (a == React ==> p[0] == sc.base)
              && p[|p| - 1] == Framing + ScaffoldOf(a, sc)
              && EndsWith(p[|p| - 1], r.bundle.uiPrompts[0])
  {
    match a
    case React =>
      Prompts(Bundle([sc.base, Framing + sc.react], [sc.react]))
    case Node =>
      Prompts(Bundle([Framing + sc.node], [sc.node]))
    case Unresolved =>
      Forbidden(Undetermined)
  }

  /** `t` is a suffix of `s`. */
  predicate EndsWith(s: string, t: string) {
    |t| <= |s| && s[|s| - |t|..] == t
  }

  /** The route's answer once the completion call has returned: any
      failure of the call, or an answer that is not a string, is a 500;
      otherwise the answer is classified and the bundle assembled. */
  function Respond(c: Completion, sc: Scaffolds): (r: Response)
    ensures r.ServerError? <==> !c.Reply?
    ensures c.Failed? ==> r == ServerError(RequestFailed)
    ensures c.NonText? ==> r == ServerError(c.error)
    ensures c.Reply? ==> r == Assemble(Classify(c.text), sc)
  {
    match c
    case Failed => ServerError(RequestFailed)
    case NonText(e) => ServerError(e)
    case Reply(t) => Assemble(Classify(t), sc)
  }

  /** The handler of `POST /template`. An absent or empty prompt is
      answered 400 before anything is sent; any other prompt, whitespace
      only included, causes exactly one completion request, made of one
      user message, and the answer is read from its result. */
  function HandleTemplate(prompt: Field, complete: seq<Message> -> Completion, sc: Scaffolds): (x: Exchange)
    ensures x.calls == [] <==> Absent(prompt)
    ensures Absent(prompt) ==> x.response == BadRequest(MissingPrompt)
    ensures !Absent(prompt) ==>
              && |x.calls| == 1
              && x.calls[0] == [Message(User, Instruction + "\n\n" + prompt.value)]
              && x.response == Respond(complete(x.calls[0]), sc)
  {
    if Absent(prompt) then Exchange([], BadRequest(MissingPrompt))
    else
      var msgs := Request(prompt.value);
      Exchange([msgs], Respond(complete(msgs), sc))
  }

  // ---------------------------------------------------------------------
  // Reading the answer

  /** Characters of the lower-cased string are whitespace where the
      original's are. */
  lemma LowerBlank(s: string)
    requires Blank(s)
    ensures Blank(Lower(s))
  {
  }

  /** Lower-casing commutes with taking a window. */
  lemma LowerWindow(s: string, i: nat, j: nat)
    requires i <= j <= |s|
    ensures Lower(s[i..j]) == Lower(s)[i..j]
  {
  }

  /** Lower-casing distributes over concatenation. */
  lemma LowerConcat(s: string, t: string)
    ensures Lower(s + t) == Lower(s) + Lower(t)
  {
  }

  /** No character of `word` is whitespace. */
  predicate Unspaced(word: string) {
    forall k :: 0 <= k < |word| ==> !IsWs(word[k])
  }

  /** Neither label holds whitespace. */
  lemma LabelsUnspaced()
    ensures Unspaced("react") && Unspaced("node")
  {
  }

  /** A word with no whitespace in it occurs in `s` exactly when it occurs
      in a window of `s` outside which `s` is blank. */
  lemma {:induction false} WindowOccurrence(s: string, a: nat, b: nat, w: string, word: string)
    requires a <= b <= |s| && w == s[a..b]
    requires Blank(s[..a]) && Blank(s[b..])
    requires |word| > 0 && Unspaced(word)
    ensures (exists k :: OccursAt(w, word, k)) <==> (exists k :: OccursAt(s, word, k))
  {
    if k :| OccursAt(w, word, k) {
      SliceOfSlice(s, a, b, k, |word|);
      assert OccursAt(s, word, a + k);
    }
    if k :| OccursAt(s, word, k) {
      assert !IsWs(s[k]) by { assert s[k] == word[0]; }
      BlankPrefix(s, a);
      var e := k + |word| - 1;
      assert !IsWs(s[e]) by { assert s[e] == word[|word| - 1]; }
      BlankSuffix(s, b);
      SliceOfSlice(s, a, b, k - a, |word|);
      assert OccursAt(w, word, k - a);
    }
  }

  /** The characters of a blank prefix are whitespace. */
  lemma BlankPrefix(s: string, a: nat)
    requires a <= |s| && Blank(s[..a])
    ensures forall j :: 0 <= j < a ==> IsWs(s[j])
  {
    forall j | 0 <= j < a ensures IsWs(s[j]) {
      assert s[..a][j] == s[j];
    }
  }

  /** The characters of a blank suffix are whitespace. */
  lemma BlankSuffix(s: string, b: nat)
    requires b <= |s| && Blank(s[b..])
    ensures forall j :: b <= j < |s| ==> IsWs(s[j])
  {
    forall j | b <= j < |s| ensures IsWs(s[j]) {
      assert s[b..][j - b] == s[j];
    }
  }

  /** A window of a window is a window. */
  lemma SliceOfSlice(s: string, a: nat, b: nat, k: nat, n: nat)
    requires a <= b <= |s| && k + n <= b - a
    ensures s[a..b][k..k + n] == s[a + k..a + k + n]
  {
    var w := s[a..b];
    var u := w[k..k + n];
    var v := s[a + k..a + k + n];
    assert forall i :: 0 <= i < n ==> u[i] == w[k + i] == s[a + k + i] == v[i];
  }

  /** Searching the trimmed, lower-cased answer for a word without
      whitespace is searching the lower-cased answer. */
  lemma TrimmedLowerOccurrence(t: string, word: string)
    requires |word| > 0 && Unspaced(word)
    ensures Includes(Lower(Trim(t)), word) <==> Mentions(t, word)
  {
    var a := LeadingWs(t);
    var b := a + |Trim(t)|;
    LowerWindow(t, a, b);
    LowerBlankPrefix(t, a);
    LowerBlankSuffix(t, b);
    WindowOccurrence(Lower(t), a, b, Lower(Trim(t)), word);
  }

  /** Lower-casing keeps a blank prefix blank. */
  lemma LowerBlankPrefix(t: string, a: nat)
    requires a <= |t| && Blank(t[..a])
    ensures Blank(Lower(t)[..a])
  {
    forall k | 0 <= k < a ensures IsWs(Lower(t)[..a][k]) {
      assert t[..a][k] == t[k];
    }
  }

  /** Lower-casing keeps a blank suffix blank. */
  lemma LowerBlankSuffix(t: string, b: nat)
    requires b <= |t| && Blank(t[b..])
    ensures Blank(Lower(t)[b..])
  {
    forall k | 0 <= k < |t| - b ensures IsWs(Lower(t)[b..][k]) {
      assert t[b..][k] == t[b + k];
    }
  }

  /** The outcome depends on the answer only up to ASCII letter case and
      surrounding whitespace: padding an answer with whitespace on either
      side, or changing the case of its letters, changes nothing. */
  lemma {:induction false} AnswerNormalised(pre: string, t: string, post: string, t': string, sc: Scaffolds)
    requires Blank(pre) && Blank(post)
    requires Lower(t) == Lower(t')
    ensures Respond(Reply(pre + t + post), sc) == Respond(Reply(t'), sc)
  {
    var padded := pre + t + post;
    LowerConcat(pre + t, post);
    LowerConcat(pre, t);
    var s := Lower(padded);
    var a := |pre|;
    var b := |pre| + |t|;
    assert s[..a] == Lower(pre) && s[a..b] == Lower(t) && s[b..] == Lower(post);
    LowerBlank(pre);
    LowerBlank(post);
    LabelsUnspaced();
    WindowOccurrence(s, a, b, Lower(t), "react");
    WindowOccurrence(s, a, b, Lower(t), "node");
  }

  // ---------------------------------------------------------------------
  // The whole route

  /** The four answers of the route, told apart by status and determined
      by the prompt and the completion result: 400 exactly for an absent or
      empty prompt, 500 exactly when the completion did not produce a
      string, 403 exactly when the answer names neither word, and
      otherwise 200 with the react bundle when the answer names "react"
      and the node bundle when it names "node" but not "react". */
  lemma TemplateOutcomes(prompt: Field, complete: seq<Message> -> Completion, sc: Scaffolds)
    ensures var x := HandleTemplate(prompt, complete, sc);
            var c := if Absent(prompt) then Failed else complete(Request(prompt.value));
            && (Status(x.response) == 400 <==> Absent(prompt))
            && (Status(x.response) == 500 <==> !Absent(prompt) && !c.Reply?)
            && (Status(x.response) == 403 <==>
                  !Absent(prompt) && c.Reply? && !Mentions(c.text, "react") && !Mentions(c.text, "node"))
            && (Status(x.response) == 200 <==>
                  !Absent(prompt) && c.Reply? && (Mentions(c.text, "react") || Mentions(c.text, "node")))
            && (Status(x.response) == 200 && Mentions(c.text, "react") ==>
                  x.response == Prompts(Bundle([sc.base, Framing + sc.react], [sc.react])))
            && (Status(x.response) == 200 && !Mentions(c.text, "react") ==>
                  x.response == Prompts(Bundle([Framing + sc.node], [sc.node])))
  {
  }

  /** The two bundles, and the 403 answer, are pairwise distinct whatever
      the scaffold texts are: the bundle shows which archetype produced it. */
  lemma BundleIdentifiesArchetype(a: Archetype, a': Archetype, sc: Scaffolds)
    requires Assemble(a, sc) == Assemble(a', sc)
    ensures a == a'
  {
  }
}
