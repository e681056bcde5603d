/** Preparing the prompt for a language model and reading back its answer
    (app/prompting.py): the removal of a Markdown code fence around the
    answer, the substitution of the article into the prompt template and the
    name of the per-model output folder. */
module Prompting {
  import opened Wrappers
  import opened PyText
  import opened PyJson

  /** Three backticks, which open and close a Markdown code block. */
  const Fence := "```"

  /** `text.split("\n", 1)[1]`: what follows the first newline. */
  function AfterFirstNewline(text: string): (r: Result<string>)
    ensures r.Failure? <==> '\n' !in text
    ensures r.Failure? ==> r.error == IndexError
    ensures r.Success? ==> exists k | 0 <= k < |text| :: text[k] == '\n' && '\n' !in text[..k] && r.value == text[k + 1..]
  {
    if '\n' in text then
      var k := IndexOf(text, '\n');
      assert text[k] == '\n';
      Success(text[k + 1..])
    else Failure(IndexError)
  }

  /** `text.rsplit("\n", 1)[0]`: what precedes the last newline, or the whole
      text when it has none. */
  function BeforeLastNewline(text: string): (r: string)
    ensures '\n' !in text ==> r == text
    ensures '\n' in text ==> |r| < |text| && text[|r|] == '\n' && r == text[..|r|] && '\n' !in text[|r| + 1..]
  {
    if '\n' in text then text[..LastIndexOf(text, '\n')] else text
  }

  /** `strip_markdown_json(text)`: strips the text; drops an opening fence line
      (everything up to and including the first newline) when the text starts
      with three backticks; drops a closing fence line (the last newline and
      what follows) when it then ends with three backticks; strips again. An
      opening fence with no newline after it raises `IndexError`. */
  function StripMarkdownJson(text: string): (r: Result<string>)
    ensures r.Failure? <==> StartsWith(Strip(text), Fence) && '\n' !in Strip(text)
    ensures r.Failure? ==> r.error == IndexError
    ensures r.Success? ==> IsTrimmed(r.value)
    ensures !StartsWith(Strip(text), Fence) && !EndsWith(Strip(text), Fence) ==> r == Success(Strip(text))
  {
    var t := Strip(text);
    var inner :- if StartsWith(t, Fence) then AfterFirstNewline(t) else Success(t);
    var closed := if EndsWith(inner, Fence) then BeforeLastNewline(inner) else inner;
    Success(Strip(closed))
  }

  /** An answer wrapped in a code block — three backticks and a tag such as
      `json` on the first line, the body, three backticks on the last line —
      gives back the stripped body. */
  lemma {:induction false} FencedBody(tag: string, body: string)
    requires '\n' !in tag
    ensures StripMarkdownJson(Fence + tag + "\n" + body + "\n" + Fence) == Success(Strip(body))
  {
    var inner := body + "\n" + Fence;
    var text := Fence + tag + "\n" + inner;
    assert text == Fence + tag + "\n" + body + "\n" + Fence;
    assert IsTrimmed(text) by {
      assert text[0] == '`' && text[|text| - 1] == '`';
    }
    OpeningFence(tag, inner);
    ClosingFence(body);
  }

  /** Dropping the opening fence line of "```tag\nrest" gives `rest`. */
  lemma {:induction false} OpeningFence(tag: string, rest: string)
    requires '\n' !in tag
    ensures StartsWith(Fence + tag + "\n" + rest, Fence)
    ensures AfterFirstNewline(Fence + tag + "\n" + rest) == Success(rest)
  {
    var text := Fence + tag + "\n" + rest;
    assert text[..3] == Fence;
    var k := |Fence + tag|;
    assert text[k] == '\n';
    assert '\n' !in text[..k] by {
      assert text[..k] == Fence + tag;
    }
    assert IndexOf(text, '\n') == k;
    assert text[k + 1..] == rest;
  }

  /** Dropping the closing fence line of `body + "\n```"` gives `body`. */
  lemma {:induction false} ClosingFence(body: string)
    ensures EndsWith(body + "\n" + Fence, Fence)
    ensures BeforeLastNewline(body + "\n" + Fence) == body
  {
    var s := body + "\n" + Fence;
    assert s[|s| - 3..] == Fence;
    assert s[|body|] == '\n';
    assert '\n' !in s[|body| + 1..] by {
      assert s[|body| + 1..] == Fence;
    }
    assert LastIndexOf(s, '\n') == |body|;
    assert s[..|body|] == body;
  }

  /** `parse_json_from_model(text)`: the fence-stripped answer given to
      `json.loads`, which is a parameter here; a rejected text raises
      `JSONDecodeError`. */
  function ParseJsonFromModel(text: string, loads: string -> Option<Json>): (r: Result<Json>)
    ensures StripMarkdownJson(text).Failure? ==> r == Failure(IndexError)
    ensures r.Success? ==> loads(StripMarkdownJson(text).value) == Some(r.value)
    ensures StripMarkdownJson(text).Success? && loads(StripMarkdownJson(text).value).None? ==>
              r == Failure(JsonDecodeError)
  {
    var clean :- StripMarkdownJson(text);
    match loads(clean)
    case Some(v) => Success(v)
    case None => Failure(JsonDecodeError)
  }

  /** The placeholder of the prompt template. */
  const Placeholder := "{{ARTICLE_TEXT}}"

  /** `PROMPT_TEMPLATE.replace("{{ARTICLE_TEXT}}", article["body"])`: a missing
      `body` raises `KeyError`, and a body that is not a string (`None` when no
      body text was found) makes `replace` raise `TypeError`. */
  function BuildPrompt(template: string, article: map<string, Json>): (r: Result<string>)
    ensures r.Failure? <==> "body" !in article || !article["body"].JString?
    ensures "body" !in article ==> r == Failure(KeyError)
    ensures "body" in article && !article["body"].JString? ==> r == Failure(TypeError)
  {
    if "body" !in article then Failure(KeyError)
    else
      match article["body"]
      case JString(body) => Success(Replace(template, Placeholder, body))
      case _ => Failure(TypeError)
  }

  /** A template without the placeholder is the prompt as it stands. */
  lemma {:induction false} PromptWithoutPlaceholder(template: string, body: string)
    requires !Contains(template, Placeholder)
    ensures BuildPrompt(template, map["body" := JString(body)]) == Success(template)
  {
    ReplaceAbsent(template, Placeholder, body);
  }

  /** A template with exactly one placeholder gets the body in its place and
      is otherwise unchanged. */
  lemma {:induction false} PromptWithOnePlaceholder(pre: string, post: string, body: string)
    requires !Contains(pre + Placeholder[..|Placeholder| - 1], Placeholder)
    requires !Contains(post, Placeholder)
    ensures BuildPrompt(pre + Placeholder + post, map["body" := JString(body)]) == Success(pre + body + post)
  {
    var t := pre + Placeholder + post;
    forall i | 0 <= i < |pre|
      ensures !StartsWith(t[i..], Placeholder)
    {
      var q := pre + Placeholder[..|Placeholder| - 1];
      assert t[..|q|] == q;
      assert !StartsWith(q[i..], Placeholder);
      assert q[i..][..|Placeholder|] == t[i..][..|Placeholder|];
    }
    ReplaceFirst(pre, Placeholder, post, body);
    ReplaceAbsent(post, Placeholder, body);
  }

  /** `model.replace(":", "_")`: the name of the folder a model's results are
      saved under. */
  function ModelFolderName(model: string): (r: string)
    ensures |r| == |model|
    ensures ':' !in r
    ensures forall i | 0 <= i < |model| :: r[i] == if model[i] == ':' then '_' else model[i]
  {
    ReplaceChar(model, ':', '_');
    Replace(model, ":", "_")
  }
}
