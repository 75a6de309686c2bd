/** The channel classifier (main.py, `get_channel_columns`): which columns of a
    sample table hold oscilloscope channels, in table order. */
module Channels {
  import opened Subsequences

  /** A column holds a channel when its name starts with "CH" or "REF"
      (case-sensitive, as Python's `str.startswith`). */
  predicate IsChannelName(name: string): (b: bool)
    ensures b <==> || (|name| >= 2 && name[0] == 'C' && name[1] == 'H')
                   || (|name| >= 3 && name[0] == 'R' && name[1] == 'E' && name[2] == 'F')
  {
    "CH" <= name || "REF" <= name
  }

  /** The channel columns among `columns`: each channel name keeps its number of
      occurrences, every other name is dropped. */
  function ChannelColumns(columns: seq<string>): (r: seq<string>)
    ensures forall c :: c in r ==> IsChannelName(c)
    ensures forall c :: multiset(r)[c] == if IsChannelName(c) then multiset(columns)[c] else 0
    decreases |columns|
  {
    if columns == [] then
      []
    else
      assert columns == [columns[0]] + columns[1..];
      if IsChannelName(columns[0]) then [columns[0]] + ChannelColumns(columns[1..])
      else ChannelColumns(columns[1..])
  }

  /** The channel columns appear in the order the table lists them. */
  lemma {:induction false} ChannelColumnsIsSubsequence(columns: seq<string>)
    ensures IsSubsequence(ChannelColumns(columns), columns)
    decreases |columns|
  {
    if columns != [] {
      ChannelColumnsIsSubsequence(columns[1..]);
    }
  }

  /** Classifying splits over concatenation: the relative order of the columns
      from either part is kept. */
  lemma {:induction false} ChannelColumnsAppend(a: seq<string>, b: seq<string>)
    ensures ChannelColumns(a + b) == ChannelColumns(a) + ChannelColumns(b)
    decreases |a|
  {
    if a != [] {
      assert (a + b)[1..] == a[1..] + b;
      ChannelColumnsAppend(a[1..], b);
    } else {
      assert a + b == b;
    }
  }

  /** Classifying the channel columns again returns them unchanged. */
  lemma {:induction false} ChannelColumnsIdempotent(columns: seq<string>)
    ensures ChannelColumns(ChannelColumns(columns)) == ChannelColumns(columns)
    decreases |columns|
  {
    if columns != [] {
      ChannelColumnsIdempotent(columns[1..]);
      var rest := ChannelColumns(columns[1..]);
      if IsChannelName(columns[0]) {
        assert ([columns[0]] + rest)[1..] == rest;
      }
    }
  }

  /** The result is empty exactly when no column name is a channel name. */
  lemma ChannelColumnsEmptyIff(columns: seq<string>)
    ensures ChannelColumns(columns) == [] <==> forall k :: 0 <= k < |columns| ==> !IsChannelName(columns[k])
  {
    var r := ChannelColumns(columns);
    if r == [] {
      forall k | 0 <= k < |columns|
        ensures !IsChannelName(columns[k])
      {
        assert columns[k] in multiset(columns);
        assert multiset(r)[columns[k]] == 0;
      }
    } else {
      assert r[0] in multiset(r);
      assert r[0] in multiset(columns);
      assert r[0] in columns;
    }
  }

  /** A typical export header: the time axis and a metadata column are dropped. */
  lemma ChannelColumnsExample()
    ensures ChannelColumns(["TIME", "CH1", "FOO", "REF2"]) == ["CH1", "REF2"]
  {
    var columns: seq<string> := ["TIME", "CH1", "FOO", "REF2"];
    assert !IsChannelName("TIME") by {
      assert "TIME"[..2][0] != "CH"[0] && "TIME"[..3][0] != "REF"[0];
    }
    assert !IsChannelName("FOO") by {
      assert "FOO"[..2][0] != "CH"[0] && "FOO"[..3][0] != "REF"[0];
    }
    assert IsChannelName("CH1") by {
      assert "CH1"[..2] == "CH";
    }
    assert IsChannelName("REF2") by {
      assert "REF2"[..3] == "REF";
    }
    assert ChannelColumns(columns[3..]) == ["REF2"];
    assert ChannelColumns(columns[2..]) == ["REF2"];
    assert ChannelColumns(columns[1..]) == ["CH1", "REF2"];
  }
}
