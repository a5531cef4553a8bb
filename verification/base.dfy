/**
 * Types shared by every part of the bot: the optional and fallible wrappers,
 * the platforms a message can come from, and the responses the user handler
 * hands back to the platform adapters.
 */
module Base {

  /** The conventional optional value. */
  datatype Option<+T> = None | Some(value: T)

  /**
   * Why an evaluation aborted. Each case stands for one `expect`, `todo!`,
   * `unwrap` or integer underflow in the bot that ends the current task.
   */
  datatype Fault =
    | NoDescriptorMatch      // the argument descriptor regex found no match
    | UrlWithoutArgument     // a `url` type without its primary template
    | UnknownTypeName        // a type name that is neither `url` nor `string…`
    | FillUnwrapFailed       // a template fill that the code unwraps failed
    | NoOffDays              // `off_days.len() - 1` on an empty list

  /** A value, or the fault that aborted its computation. */
  datatype Result<+T> = Ok(value: T) | Panic(fault: Fault)

  /** Rust's `NonZeroU32`. */
  type NonZeroU32 = n: int | 0 < n < 0x1_0000_0000 witness 1

  /** The messaging platform a message comes from. */
  datatype Source = Discord | Twitch

  /** The answer of the user-facing handler, before an adapter renders it. */
  datatype UserResponse =
    | Commands(names: Option<seq<string>>)
    | Links(links: seq<(string, string)>)
    | Schedule(start: string, finish: string, offDays: seq<string>)
    | Crate(link: Option<string>)
    | Ban(target: string)
    | Custom(content: string)
    | Unknown
    | WrongArgs

  /** What reaches a platform adapter; admin answers are not rendered here. */
  datatype Response = User(user: UserResponse) | Admin
}
