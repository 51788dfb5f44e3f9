/** The alert text that `send_telegram_notification` posts for a course. */
module Notify {
  import opened Wrappers

  /** Text before the course name: a siren emoji, the headline and a blank line. */
  const AlertPrefix: string := "\U{1F6A8} ICAI SLOT OPEN!\n\nCourse: "

  /** Text after the course name. */
  const AlertSuffix: string := "\nPOU: Hyderabad\n\nBook NOW!"

  /** The message sent for `course`. */
  function AlertMessage(course: string): string {
    AlertPrefix + course + AlertSuffix
  }

  /** Reads the course name back out of a message, if it has the alert's shape. */
  function CourseOf(message: string): Option<string> {
    if |message| >= |AlertPrefix| + |AlertSuffix|
       && message[..|AlertPrefix|] == AlertPrefix
       && message[|message| - |AlertSuffix|..] == AlertSuffix
    then Some(message[|AlertPrefix|..|message| - |AlertSuffix|])
    else None
  }

  /** The course name can always be recovered from its alert. */
  lemma CourseOfAlert(course: string)
    ensures CourseOf(AlertMessage(course)) == Some(course)
  {
    var m := AlertMessage(course);
    assert m[..|AlertPrefix|] == AlertPrefix;
    assert m[|m| - |AlertSuffix|..] == AlertSuffix;
    assert m[|AlertPrefix|..|m| - |AlertSuffix|] == course;
  }

  /** A message from which a course name is read back is that course's alert. */
  lemma AlertOfCourseOf(message: string, course: string)
    requires CourseOf(message) == Some(course)
    ensures message == AlertMessage(course)
  {
    var p, s := |AlertPrefix|, |AlertSuffix|;
    assert message == message[..p] + message[p..|message| - s] + message[|message| - s..];
  }

  /** Different courses get different alerts. */
  lemma AlertMessageInjective(a: string, b: string)
    requires AlertMessage(a) == AlertMessage(b)
    ensures a == b
  {
    CourseOfAlert(a);
    CourseOfAlert(b);
  }
}
