/**
 * The decision made by the bot's message listener: which reply, if any, a
 * channel message selects. The reply is only chosen here; sending it to the
 * channel is left to the chat library.
 */
module Listener {
  import opened Wrappers
  import GweeBot

  /** A reply to the channel: a plain message or an action (`/me`). */
  datatype Reply = Message(text: string) | Action(text: string)

  /** Lower-cases an ASCII letter and leaves every other character alone. */
  function LowerChar(c: char): char
  {
    if 'A' <= c <= 'Z' then (c as int + 32) as char else c
  }

  /** Upper-cases an ASCII letter and leaves every other character alone. */
  function UpperChar(c: char): char
  {
    if 'a' <= c <= 'z' then (c as int - 32) as char else c
  }

  /**
   * Two characters match ignoring case when they are equal, or equal after
   * upper-casing, or equal after upper- then lower-casing.
   */
  predicate CharEqualsIgnoreCase(a: char, b: char)
  {
    a == b || UpperChar(a) == UpperChar(b) || LowerChar(UpperChar(a)) == LowerChar(UpperChar(b))
  }

  /** The ASCII lower-case form of a string. */
  function Lower(s: string): string
    decreases |s|
  {
    if s == [] then [] else [LowerChar(s[0])] + Lower(s[1..])
  }

  /** Lower-casing keeps the length and works one character at a time. */
  lemma {:induction false} LowerAt(s: string)
    ensures |Lower(s)| == |s|
    ensures forall i :: 0 <= i < |s| ==> Lower(s)[i] == LowerChar(s[i])
    decreases |s|
  {
    if s != [] {
      LowerAt(s[1..]);
    }
  }

  /** Two characters match ignoring case exactly when their lower-case forms are equal. */
  lemma CharEqualsIgnoreCaseIffLower(a: char, b: char)
    ensures CharEqualsIgnoreCase(a, b) <==> LowerChar(a) == LowerChar(b)
  {
  }

  /**
   * Two strings match ignoring case when they have the same length and match
   * character by character; that is, when their lower-case forms are equal.
   */
  predicate EqualsIgnoreCase(s: string, t: string)
    ensures EqualsIgnoreCase(s, t) <==> Lower(s) == Lower(t)
  {
    LowerAt(s);
    LowerAt(t);
    |s| == |t| && forall i :: 0 <= i < |s| ==> CharEqualsIgnoreCase(s[i], t[i])
  }

  /** A string without ASCII capitals is its own lower-case form. */
  lemma LowerOfLowerCase(s: string)
    requires forall i :: 0 <= i < |s| ==> !('A' <= s[i] <= 'Z')
    ensures Lower(s) == s
  {
    LowerAt(s);
  }

  /**
   * Which reply the listener sends for the channel message `message`. The
   * formatted current time and the package version are inputs: the first
   * depends on the clock and the time zone, the second on the packaging.
   * The message `!time` in any case, and only it, selects the time message;
   * `!version` in any case, and only it, selects the action `v` followed by
   * the version; every other message selects nothing.
   */
  function OnMessage(message: string, time: string, packageVersion: Option<string>): (r: Option<Reply>)
    ensures r == Some(Message(time)) <==> Lower(message) == "!time"
    ensures r == Some(Action("v" + GweeBot.GetVersion(packageVersion))) <==> Lower(message) == "!version"
    ensures r == None <==> Lower(message) != "!time" && Lower(message) != "!version"
  {
    LowerOfLowerCase("!time");
    LowerOfLowerCase("!version");
    if EqualsIgnoreCase(message, "!time") then Some(Message(time))
    else if EqualsIgnoreCase(message, "!version") then Some(Action("v" + GweeBot.GetVersion(packageVersion)))
    else None
  }

  /** The two commands never match the same message, so at most one reply is chosen. */
  lemma CommandsExclusive(message: string)
    ensures !(EqualsIgnoreCase(message, "!time") && EqualsIgnoreCase(message, "!version"))
  {
  }

  /**
   * Matching is on the whole message: a message of any length other than
   * five or eight characters selects nothing.
   */
  lemma WholeMessageOnly(message: string, time: string, packageVersion: Option<string>)
    requires |message| != 5 && |message| != 8
    ensures OnMessage(message, time, packageVersion) == None
  {
  }

  /** The version reply carries the package version, or the default when there is none. */
  lemma VersionReplyText(message: string, time: string, packageVersion: Option<string>)
    requires Lower(message) == "!version"
    ensures packageVersion.Some? ==>
              OnMessage(message, time, packageVersion) == Some(Action("v" + packageVersion.value))
    ensures packageVersion.None? ==>
              OnMessage(message, time, packageVersion) == Some(Action("v0.0.0+DEFAULT"))
  {
    assert "v" + GweeBot.DefaultVersion == "v0.0.0+DEFAULT";
  }

  /** Examples: the commands are recognised whatever the case of their letters. */
  lemma RecognisedExamples(time: string, packageVersion: Option<string>)
    ensures OnMessage("!TIME", time, packageVersion) == Some(Message(time))
    ensures OnMessage("!Time", time, packageVersion) == Some(Message(time))
    ensures OnMessage("!VeRsIoN", time, packageVersion) == Some(Action("v" + GweeBot.GetVersion(packageVersion)))
  {
    LowerAt("!TIME");
    assert Lower("!TIME") == "!time";
    LowerAt("!Time");
    assert Lower("!Time") == "!time";
    LowerAt("!VeRsIoN");
    assert Lower("!VeRsIoN") == "!version";
  }

  /** Examples: a command with more text, a padded command and an empty message select nothing. */
  lemma RejectedExamples(time: string, packageVersion: Option<string>)
    ensures OnMessage("!time now", time, packageVersion) == None
    ensures OnMessage(" !time", time, packageVersion) == None
    ensures OnMessage("!versions", time, packageVersion) == None
    ensures OnMessage("", time, packageVersion) == None
  {
    WholeMessageOnly("!time now", time, packageVersion);
    WholeMessageOnly(" !time", time, packageVersion);
    WholeMessageOnly("!versions", time, packageVersion);
    WholeMessageOnly("", time, packageVersion);
  }
}
