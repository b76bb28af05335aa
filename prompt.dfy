/** The instruction text sent to the model: a fixed preamble, the
    patient's narrative, and the JSON layout the reply must follow. */
module SoapPrompt {
  import opened Wrappers
  import opened Strings

  /** Everything before the narrative. The template is a verbatim
      interpolated string, so its line breaks and indentation belong to it. */
  const PromptPrefix: string := @"
                You are a clinical assistant helping to create SOAP notes.
                --Please generate polite and patient-friendly responses while keeping a professional medical tone. 
                --The goal is to make the output easy for patients and clinicians to read, not blunt or overly technical. 
                --Keep the response polite, easy to read, and concise so that it fits in a chatbot UI.
                --Limit each section to short, clear sentences.
                --In addition to JSON, also generate an HTML version of the same content under the key 'htmlFormat', formatted with proper headings (SOAP, Subjective, Objective, Assessment, Plan) and subheadings for the plan (Investigations, Medications, Lifestyle Advice, Referrals, Monitoring). 
                --Ensure the HTML is clean and suitable for direct rendering in a chatbot UI.

                Always output valid JSON strictly following this schema:
                
                Patient Narrative:
                "

  /** Everything after the narrative. The template's doubled braces stand
      for single ones; a doubled quote is one quote, in C# and in Dafny. */
  const PromptSuffix: string := @"
                
                Output JSON structure:
                {
                  ""Subjective"": ""..."",
                  ""Objective"": ""..."",
                  ""Assessment"": ""..."",
                  ""Plan"": {
                    ""Investigations"": [""string""],
                    ""Medications"": [""string""],
                    ""LifestyleAdvice"": [""string""],
                    ""Referrals"": [""string""],
                    ""Monitoring"": [""string""]
                  }
                ""htmlFormat"": ""<div>...</div>""
                }"

  /** What an interpolation hole prints: `null` prints nothing. */
  function Interpolated(n: NString): string {
    if n.None? then "" else n.value
  }

  /** The prompt for a narrative. */
  function BuildPrompt(narrative: NString): (p: string)
    ensures |p| == |PromptPrefix| + |Interpolated(narrative)| + |PromptSuffix|
  {
    PromptPrefix + Interpolated(narrative) + PromptSuffix
  }

  /** Reads the narrative back out of a prompt; `None` for a text that is
      not framed by the fixed prefix and suffix. */
  function NarrativeOf(p: string): Option<string> {
    if |p| >= |PromptPrefix| + |PromptSuffix|
       && p[..|PromptPrefix|] == PromptPrefix
       && p[|p| - |PromptSuffix|..] == PromptSuffix
    then Some(p[|PromptPrefix|..|p| - |PromptSuffix|])
    else None
  }

  /** The narrative can be recovered from its prompt exactly. */
  lemma NarrativeOfPrompt(n: string)
    ensures NarrativeOf(BuildPrompt(Some(n))) == Some(n)
  {
    var p := BuildPrompt(Some(n));
    var a, b := |PromptPrefix|, |PromptSuffix|;
    assert p[..a] == PromptPrefix;
    assert p[|p| - b..] == PromptSuffix;
    assert p[a..|p| - b] == n;
  }

  /** Distinct narratives give distinct prompts. */
  lemma PromptInjective(n: string, m: string)
    requires BuildPrompt(Some(n)) == BuildPrompt(Some(m))
    ensures n == m
  {
    NarrativeOfPrompt(n);
    NarrativeOfPrompt(m);
  }

  /** A `null` narrative prompts exactly as an empty one. */
  lemma NullNarrativePrompt()
    ensures BuildPrompt(None) == BuildPrompt(Some(""))
  {
  }
}
