/**
 * src/gemini_client.py: the prompt sent to the language model, the validator applied to what
 * comes back, and the cache-first parse flow around the model call.
 *
 * The model's reply, the regular expression that cuts the JSON object out of it, `json.loads`,
 * `json.dumps`, and the grammars of `float()` and `strptime` are abstract: the reply is a
 * parameter and the rest are functions passed in.
 */
module Gemini {
  import opened Wrappers
  import opened Calendar
  import Database

  /** `DEFAULT_CATEGORIES`. */
  const DefaultCategories: seq<string> := [
    "Food & Dining", "Groceries", "Transportation", "Housing", "Utilities",
    "Shopping", "Entertainment", "Health & Wellness", "Education", "Travel",
    "Personal Care", "Gifts & Donations", "Kids", "Pets", "Business", "Miscellaneous"
  ]

  /** A value `json.loads` can return. */
  datatype Json =
    | JNull
    | JBool(b: bool)
    | JInt(i: int)
    | JFloat(r: real)
    | JString(s: string)
    | JArray(items: seq<Json>)
    | JObject(fields: map<string, Json>)

  /** Python truthiness of a decoded value, as in `if parsed_data`. */
  predicate Truthy(j: Json) {
    match j
    case JNull => false
    case JBool(b) => b
    case JInt(i) => i != 0
    case JFloat(r) => r != 0.0
    case JString(s) => s != ""
    case JArray(items) => items != []
    case JObject(fields) => fields != map[]
  }

  /** Which texts `float(text)` and `datetime.strptime(text, '%Y-%m-%d')` accept. */
  datatype Grammar = Grammar(isFloatText: string -> bool, isIsoDateText: string -> bool)

  /**
   * The least magnitude of an `int` that `float()` rounds past the largest double,
   * 2^1024 - 2^970, where it raises OverflowError.
   */
  const FloatOverflowBound: int := 0xFFFFFFFFFFFFFC00000000000000000000000000000000000000000000000000000000000000000000000000000000000000000000000000000000000000000000000000000000000000000000000000000000000000000000000000000000000000000000000000000000000000000000000000000000000000000000000000

  /** `float(v)` raises OverflowError: `json.loads` made an `int` too large for a double. */
  predicate FloatOverflows(v: Json) {
    v.JInt? && (v.i >= FloatOverflowBound || v.i <= -FloatOverflowBound)
  }

  /** `float(v)` returns instead of raising (a bool is an int in Python). */
  predicate FloatConverts(v: Json, g: Grammar) {
    match v
    case JInt(i) => -FloatOverflowBound < i < FloatOverflowBound
    case JFloat(_) => true
    case JBool(_) => true
    case JString(s) => g.isFloatText(s)
    case _ => false
  }

  /** `strptime(v, '%Y-%m-%d')` returns; anything but a string raises TypeError. */
  predicate DateParses(v: Json, g: Grammar) {
    v.JString? && g.isIsoDateText(v.s)
  }

  const RequiredFields: seq<string> := ["category", "title", "amount", "date"]

  /**
   * The result of `_validate_expense_data`: True, False, or an exception that escapes it (a
   * TypeError from the `in` test, or an OverflowError, which `except (ValueError, TypeError)`
   * does not catch).
   */
  datatype Verdict = Valid | Invalid | RaisesTypeError | RaisesOverflowError

  /**
   * `_validate_expense_data`. On a list or a string the `in` tests run and the indexing that
   * follows raises TypeError inside the `try`, so the answer is False; on null, a bool or a
   * number the `in` test itself raises, outside the `try`. The amount is converted before the
   * date is parsed, so an overflowing amount escapes whatever the date is.
   */
  function ValidateExpenseData(data: Json, g: Grammar): (v: Verdict)
    ensures v == Valid <==>
              && data.JObject?
              && (forall f :: f in RequiredFields ==> f in data.fields)
              && FloatConverts(data.fields["amount"], g)
              && DateParses(data.fields["date"], g)
    ensures data.JObject? && (exists f :: f in RequiredFields && f !in data.fields) ==> v == Invalid
    ensures data.JObject? && "amount" in data.fields ==>
              !FloatConverts(data.fields["amount"], g) && !FloatOverflows(data.fields["amount"]) ==> v == Invalid
    ensures data.JObject? && "date" in data.fields && !DateParses(data.fields["date"], g) ==>
              !("amount" in data.fields && FloatOverflows(data.fields["amount"])) ==> v == Invalid
    ensures v == RaisesOverflowError <==>
              && data.JObject?
              && (forall f :: f in RequiredFields ==> f in data.fields)
              && FloatOverflows(data.fields["amount"])
    ensures v == RaisesTypeError <==> data.JNull? || data.JBool? || data.JInt? || data.JFloat?
  {
    match data
    case JObject(fields) =>
      if !("category" in fields && "title" in fields && "amount" in fields && "date" in fields) then Invalid
      else if FloatOverflows(fields["amount"]) then RaisesOverflowError
      else if !FloatConverts(fields["amount"], g) then Invalid
      else if !DateParses(fields["date"], g) then Invalid
      else Valid
    case JArray(_) => Invalid
    case JString(_) => Invalid
    case _ => RaisesTypeError
  }

  /** `", ".join(f"'{cat}'" for cat in cats)`. */
  function QuotedList(cats: seq<string>): string {
    if cats == [] then ""
    else if |cats| == 1 then "'" + cats[0] + "'"
    else "'" + cats[0] + "', " + QuotedList(cats[1..])
  }

  /**
   * The fixed parts of a prompt: the text before today's date, the text before the list of
   * categories and the categories listed, the text before the input, and the closing text.
   */
  datatype PromptTemplate =
    PromptTemplate(head: string, categoriesIntro: string, categories: seq<string>, inputIntro: string, tail: string)

  /** The instructions `_build_expense_prompt` writes. */
  function ExpenseTemplate(): PromptTemplate {
    PromptTemplate(
      "\n        You are an expert expense parser. Convert the input into a structured JSON object.\n"
      + "        - Fields: category, title, amount, date.\n"
      + "        - Date format must be YYYY-MM-DD. If unspecified, use today: ",
      ".\n        - Standardize the category to one of the following: ",
      DefaultCategories,
      ". If it doesn't fit, use 'Miscellaneous'.\n\n        Input: \"",
      "\"\n\n        Example Output: { \"category\": \"Food & Dining\", \"title\": \"Dinner with friends\", "
      + "\"amount\": 1250, \"date\": \"2024-07-21\" }\n\n        Respond with only the JSON object.\n        ")
  }

  /** The text between today's date and the input text. */
  function Middle(template: PromptTemplate): string {
    template.categoriesIntro + QuotedList(template.categories) + template.inputIntro
  }

  /** `_build_expense_prompt`: the template with today's `%Y-%m-%d` text and the input text spliced in. */
  function BuildExpensePrompt(template: PromptTemplate, inputText: string, today: Date): (p: string)
    requires ValidDate(today)
    ensures |p| == |template.head| + 10 + |Middle(template)| + |inputText| + |template.tail|
    ensures p[..|template.head|] == template.head
    ensures p[|template.head|..|template.head| + 10] == IsoText(today)
    ensures p[|p| - |template.tail| - |inputText|..|p| - |template.tail|] == inputText
    ensures p[|p| - |template.tail|..] == template.tail
  {
    template.head + IsoText(today) + Middle(template) + inputText + template.tail
  }

  /** Two texts cut the same way around equal frames have equal pieces. */
  lemma SplicedPieces(h: string, x: string, m: string, a: string, t: string, y: string, b: string)
    requires |x| == |y|
    requires h + x + m + a + t == h + y + m + b + t
    ensures x == y && a == b
  {
    var p, q := h + x + m + a + t, h + y + m + b + t;
    assert |a| == |b|;
    assert p[|h|..|h| + |x|] == x && q[|h|..|h| + |y|] == y;
    var k := |h| + |x| + |m|;
    assert p[k..k + |a|] == a && q[k..k + |b|] == b;
  }

  /** The prompt determines both the input text and the date it was built on. */
  lemma PromptDeterminesInputs(template: PromptTemplate, a: string, d: Date, b: string, e: Date)
    requires ValidDate(d) && ValidDate(e)
    requires BuildExpensePrompt(template, a, d) == BuildExpensePrompt(template, b, e)
    ensures a == b && d == e
  {
    SplicedPieces(template.head, IsoText(d), Middle(template), a, template.tail, IsoText(e), b);
    IsoTextInjective(d, e);
  }

  /** The same text entered on two different days is cached under two different keys. */
  lemma NewDayNewCacheKey(template: PromptTemplate, inputText: string, d: Date, e: Date)
    requires ValidDate(d) && ValidDate(e) && d != e
    ensures Database.HashValue(BuildExpensePrompt(template, inputText, d))
         != Database.HashValue(BuildExpensePrompt(template, inputText, e))
  {
    if BuildExpensePrompt(template, inputText, d) == BuildExpensePrompt(template, inputText, e) {
      PromptDeterminesInputs(template, inputText, d, inputText, e);
    }
  }

  /**
   * The JSON library and the regular expression: `searchBraces(text)` is the text that
   * `re.search(r'\{.*\}', text, re.DOTALL)` matches, `loads` is None where `json.loads`
   * raises JSONDecodeError.
   */
  datatype JsonCodec = JsonCodec(
    searchBraces: string -> Option<string>, loads: string -> Option<Json>, dumps: Json -> string)

  /** `_extract_json_from_response`. */
  function ExtractJsonFromResponse(text: string, codec: JsonCodec): (r: Option<Json>)
    ensures codec.searchBraces(text).None? ==> r.None?
    ensures codec.searchBraces(text).Some? ==> r == codec.loads(codec.searchBraces(text).value)
  {
    match codec.searchBraces(text)
    case None => None
    case Some(matched) => codec.loads(matched)
  }

  /**
   * What `parse_expense_input` hands back: the parsed data, None, or the JSONDecodeError that
   * `json.loads` raises on a cached entry, which is outside the `try`.
   */
  datatype ParseOutcome = Parsed(data: Json) | NotParsed | RaisesDecodeError

  /** The outcome of returning `json.loads(cached)`. */
  function Decoded(cached: string, codec: JsonCodec): ParseOutcome {
    match codec.loads(cached)
    case Some(j) => Parsed(j)
    case None => RaisesDecodeError
  }

  /** A model reply that the flow accepts and caches: extraction succeeds, is truthy, and validates. */
  predicate Acceptable(reply: string, codec: JsonCodec, g: Grammar) {
    var parsed := ExtractJsonFromResponse(reply, codec);
    parsed.Some? && Truthy(parsed.value) && ValidateExpenseData(parsed.value, g) == Valid
  }

  class GeminiClient {
    /** Whether `self.model` is set: the library is installed, a key was given and configuration worked. */
    const hasModel: bool
    /** `self.db_manager`, possibly None. */
    const db: Database.DatabaseManager?
    /** The instructions the prompts are built from. */
    const template: PromptTemplate
    /** The prompts sent to the model, in order. */
    var sent: seq<string>

    /** `__init__`; the prompt instructions, `ExpenseTemplate()` in the application, are passed in. */
    constructor (hasModel: bool, db: Database.DatabaseManager?, template: PromptTemplate)
      ensures this.hasModel == hasModel && this.db == db && this.template == template && sent == []
    {
      this.hasModel := hasModel;
      this.db := db;
      this.template := template;
      sent := [];
    }

    /** The cached text for a prompt that counts as a hit: `if cached_response:` skips the empty text. */
    function CachedText(prompt: string): (t: Option<string>)
      reads db
      ensures t.Some? ==> t.value != "" && db != null && db.GetCachedResponse(prompt) == t
      ensures t.None? ==> db == null || db.GetCachedResponse(prompt) in {None, Some("")}
    {
      if db == null then None
      else match db.GetCachedResponse(prompt)
        case Some(text) => if text != "" then Some(text) else None
        case None => None
    }

    /**
     * `parse_expense_input`. `reply` stands for what the model call gives back, None where it
     * raises; `today` is the clock reading used for the prompt.
     */
    method ParseExpenseInput(inputText: string, today: Date, reply: Option<string>, codec: JsonCodec, g: Grammar)
      returns (outcome: ParseOutcome)
      requires ValidDate(today)
      requires db != null ==> db.Valid()
      modifies this, db
      ensures db != null ==> db.Valid()
      ensures db != null ==> db.users == old(db.users) && db.expenses == old(db.expenses)
      ensures db != null ==> db.lastUserId == old(db.lastUserId) && db.lastExpenseId == old(db.lastExpenseId)
      // no model: None, and the cache is neither read nor written
      ensures !hasModel ==> outcome == NotParsed && sent == old(sent) && (db != null ==> db.cache == old(db.cache))
      // a cache hit: the decoded entry, without calling the model
      ensures var prompt := BuildExpensePrompt(template, inputText, today);
              hasModel && old(CachedText(prompt)).Some? ==>
                && outcome == Decoded(old(CachedText(prompt)).value, codec)
                && sent == old(sent) && db.cache == old(db.cache)
      // a miss: exactly one model call, with the built prompt
      ensures var prompt := BuildExpensePrompt(template, inputText, today);
              hasModel && old(CachedText(prompt)).None? ==>
                && sent == old(sent) + [prompt]
                && (outcome.Parsed? <==> reply.Some? && Acceptable(reply.value, codec, g))
                && (outcome.Parsed? ==> Some(outcome.data) == ExtractJsonFromResponse(reply.value, codec))
                && outcome != RaisesDecodeError
      // the cache changes only by storing an accepted result under the prompt's hash
      ensures var prompt := BuildExpensePrompt(template, inputText, today);
              db != null && db.cache != old(db.cache) ==>
                && hasModel && old(CachedText(prompt)).None? && outcome.Parsed?
                && db.cache == old(db.cache)[Database.HashValue(prompt) := codec.dumps(outcome.data)]
      ensures var prompt := BuildExpensePrompt(template, inputText, today);
              db != null && hasModel && old(CachedText(prompt)).None? && outcome.Parsed? ==>
                db.cache == old(db.cache)[Database.HashValue(prompt) := codec.dumps(outcome.data)]
    {
      if !hasModel {
        return NotParsed;
      }
      var prompt := BuildExpensePrompt(template, inputText, today);
      var cached := CachedText(prompt);
      if cached.Some? {
        return Decoded(cached.value, codec);
      }
      sent := sent + [prompt];
      if reply.None? {
        // the model call raised; the `except Exception` turns it into None
        return NotParsed;
      }
      var parsed := ExtractJsonFromResponse(reply.value, codec);
      if parsed.Some? && Truthy(parsed.value) {
        var verdict := ValidateExpenseData(parsed.value, g);
        if verdict == Valid {
          if db != null {
            db.CacheResponse(prompt, codec.dumps(parsed.value));
          }
          return Parsed(parsed.value);
        }
        // Invalid, or a TypeError or OverflowError caught by the `except Exception`
      }
      outcome := NotParsed;
    }
  }

  /**
   * Entering the same text twice on one day, when the first answer is parsed: the second call
   * does not call the model and gives back the same answer from the cache, provided `json.loads`
   * undoes `json.dumps` on every value `json.loads` returns and `json.dumps` never yields the
   * empty text.
   */
  method RepeatedInputHitsCache(
    client: GeminiClient, inputText: string, today: Date, reply1: Option<string>, reply2: Option<string>,
    codec: JsonCodec, g: Grammar)
    returns (first: ParseOutcome, second: ParseOutcome)
    requires ValidDate(today) && client.hasModel && client.db != null && client.db.Valid()
    requires forall t, j :: codec.loads(t) == Some(j) ==> codec.loads(codec.dumps(j)) == Some(j)
    requires forall j :: codec.dumps(j) != ""
    modifies client, client.db
    ensures first.Parsed? ==> second == first
    ensures first.Parsed? ==> |client.sent| <= |old(client.sent)| + 1
  {
    first := client.ParseExpenseInput(inputText, today, reply1, codec, g);
    second := client.ParseExpenseInput(inputText, today, reply2, codec, g);
  }
}
